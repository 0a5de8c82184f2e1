/**
 * The PXE's note database over an in-memory key-value store.
 *
 * Notes live in an append-only table; a note's id is its position there.
 * Four multi-maps index the ids by contract address, storage slot, tx hash
 * and owner public key, and a set records the ids of nullified notes. Field
 * elements, addresses and public keys are modelled by the numbers they
 * print as (their `toString` keys), and the stored buffers by the values
 * they serialize.
 */
module PxeDatabase {
  import opened Wrappers

  /** A note as the store keeps it (NoteDao): the fields the database reads, plus its items. */
  datatype Note = Note(
    contractAddress: nat,
    storageSlot: nat,
    txHash: nat,
    publicKey: nat,
    siloedNullifier: nat,
    items: seq<nat>)

  /** The four secondary indexes over the notes table. */
  datatype NoteIndex = ByContract | ByStorageSlot | ByTxHash | ByOwner

  /** The key a note is filed under in an index. */
  function KeyOf(note: Note, index: NoteIndex): nat
  {
    match index
    case ByContract => note.contractAddress
    case ByStorageSlot => note.storageSlot
    case ByTxHash => note.txHash
    case ByOwner => note.publicKey
  }

  /** NoteFilter: every criterion is optional. */
  datatype NoteFilter = NoteFilter(
    contractAddress: Option<nat>,
    txHash: Option<nat>,
    storageSlot: Option<nat>,
    owner: Option<nat>)

  /** Criteria a note may have to meet; `None` means "any". */
  datatype Query = Query(
    contractAddress: Option<nat>,
    txHash: Option<nat>,
    storageSlot: Option<nat>,
    publicKey: Option<nat>,
    nullifiers: Option<set<nat>>)

  predicate Matches(note: Note, q: Query)
  {
    && (q.contractAddress.Some? ==> note.contractAddress == q.contractAddress.value)
    && (q.txHash.Some? ==> note.txHash == q.txHash.value)
    && (q.storageSlot.Some? ==> note.storageSlot == q.storageSlot.value)
    && (q.publicKey.Some? ==> note.publicKey == q.publicKey.value)
    && (q.nullifiers.Some? ==> note.siloedNullifier in q.nullifiers.value)
  }

  /** The query pins the key of the given index to k. */
  predicate Fixes(q: Query, index: NoteIndex, k: nat)
  {
    match index
    case ByContract => q.contractAddress == Some(k)
    case ByStorageSlot => q.storageSlot == Some(k)
    case ByTxHash => q.txHash == Some(k)
    case ByOwner => q.publicKey == Some(k)
  }

  /** A registered account: its address, public key and partial address. */
  datatype CompleteAddress = CompleteAddress(address: nat, publicKey: nat, partialAddress: nat)

  /** A deployed contract as stored (ContractDao), filed under its address. */
  datatype ContractDao = ContractDao(address: nat, artifact: seq<nat>)

  datatype MerkleTreeId =
    | ContractTree | NullifierTree | NoteHashTree | PublicDataTree | L1ToL2MessagesTree | Archive

  /** The block header's tree roots, the kernel's vk tree root and the hash of its global variables. */
  datatype BlockHeader = BlockHeader(
    noteHashTreeRoot: nat,
    nullifierTreeRoot: nat,
    contractTreeRoot: nat,
    l1ToL2MessagesTreeRoot: nat,
    archiveRoot: nat,
    privateKernelVkTreeRoot: nat,
    publicDataTreeRoot: nat,
    globalVariablesHash: nat)

  /** What the block header singleton stores: each tree's root by tree id, and the globals hash. */
  datatype SerializedBlockHeader = SerializedBlockHeader(roots: map<MerkleTreeId, nat>, globalVariablesHash: nat)

  predicate HasAllRoots(s: SerializedBlockHeader)
  {
    forall id: MerkleTreeId :: id in s.roots
  }

  /** setBlockHeader's serialization: the six tree roots, keyed by tree id, and the globals hash. */
  function Serialize(h: BlockHeader): SerializedBlockHeader
  {
    SerializedBlockHeader(
      map[NoteHashTree := h.noteHashTreeRoot,
          NullifierTree := h.nullifierTreeRoot,
          ContractTree := h.contractTreeRoot,
          L1ToL2MessagesTree := h.l1ToL2MessagesTreeRoot,
          Archive := h.archiveRoot,
          PublicDataTree := h.publicDataTreeRoot],
      h.globalVariablesHash)
  }

  /** getBlockHeader's reconstruction; the vk tree root is not stored and comes back as zero. */
  function Deserialize(s: SerializedBlockHeader): BlockHeader
    requires HasAllRoots(s)
  {
    BlockHeader(
      s.roots[NoteHashTree], s.roots[NullifierTree], s.roots[ContractTree],
      s.roots[L1ToL2MessagesTree], s.roots[Archive], 0,
      s.roots[PublicDataTree], s.globalVariablesHash)
  }

  /** Reading back a stored header gives every root and the globals hash unchanged, with the vk tree root zeroed. */
  lemma HeaderRoundTrip(h: BlockHeader)
    ensures HasAllRoots(Serialize(h))
    ensures Deserialize(Serialize(h)) == h.(privateKernelVkTreeRoot := 0)
    ensures forall id: MerkleTreeId :: Serialize(h).roots[id] == RootOf(h, id)
  {
    SerializeHasAllRoots(h);
    forall id: MerkleTreeId
      ensures Serialize(h).roots[id] == RootOf(h, id)
    {
      match id
      case ContractTree =>
      case NullifierTree =>
      case NoteHashTree =>
      case PublicDataTree =>
      case L1ToL2MessagesTree =>
      case Archive =>
    }
  }

  /** The stored header has a root for every tree. */
  lemma SerializeHasAllRoots(h: BlockHeader)
    ensures HasAllRoots(Serialize(h))
  {
    forall id: MerkleTreeId
      ensures id in Serialize(h).roots
    {
      match id
      case ContractTree =>
      case NullifierTree =>
      case NoteHashTree =>
      case PublicDataTree =>
      case L1ToL2MessagesTree =>
      case Archive =>
    }
  }

  /** The header's root for one tree. */
  function RootOf(h: BlockHeader, id: MerkleTreeId): nat
  {
    match id
    case ContractTree => h.contractTreeRoot
    case NullifierTree => h.nullifierTreeRoot
    case NoteHashTree => h.noteHashTreeRoot
    case PublicDataTree => h.publicDataTreeRoot
    case L1ToL2MessagesTree => h.l1ToL2MessagesTreeRoot
    case Archive => h.archiveRoot
  }

  // ----- the multi-maps -----

  /** getValues: the ids stored under k, none when k was never set. */
  function Values(m: map<nat, seq<nat>>, k: nat): seq<nat>
  {
    if k in m then m[k] else []
  }

  /** set(k, id): the id joins those under k (a pair already present is kept once). */
  function MultiMapSet(m: map<nat, seq<nat>>, k: nat, id: nat): map<nat, seq<nat>>
  {
    m[k := if id in Values(m, k) then Values(m, k) else Values(m, k) + [id]]
  }

  /** After set(k, id), k holds id once, after the ids it held, and no other key changes. */
  lemma MultiMapSetValues(m: map<nat, seq<nat>>, k: nat, id: nat)
    ensures Values(MultiMapSet(m, k, id), k) == if id in Values(m, k) then Values(m, k) else Values(m, k) + [id]
    ensures forall k' :: k' != k ==> Values(MultiMapSet(m, k, id), k') == Values(m, k')
  {
  }

  /** s without the occurrences of x. */
  function Remove(s: seq<nat>, x: nat): seq<nat>
  {
    if |s| == 0 then []
    else Remove(s[..|s| - 1], x) + (if s[|s| - 1] == x then [] else [s[|s| - 1]])
  }

  /**
   * deleteValue(k, id): the id leaves those under k; a key whose last id
   * leaves is gone, and deleting a pair that is not stored changes nothing.
   */
  function MultiMapDelete(m: map<nat, seq<nat>>, k: nat, id: nat): map<nat, seq<nat>>
  {
    if k in m && id in m[k] then
      var rest := Remove(m[k], id);
      if rest == [] then m - {k} else m[k := rest]
    else m
  }

  /** After deleteValue(k, id), k no longer holds id, and no other key changes. */
  lemma MultiMapDeleteValues(m: map<nat, seq<nat>>, k: nat, id: nat)
    ensures Values(MultiMapDelete(m, k, id), k) == Remove(Values(m, k), id)
    ensures forall k' :: k' != k ==> Values(MultiMapDelete(m, k, id), k') == Values(m, k')
  {
    if id !in Values(m, k) {
      RemoveAbsent(Values(m, k), id);
    }
  }

  lemma RemoveSnoc(s: seq<nat>, y: nat, x: nat)
    ensures Remove(s + [y], x) == Remove(s, x) + (if y == x then [] else [y])
  {
    assert (s + [y])[..|s|] == s;
  }

  lemma {:induction false} RemoveAbsent(s: seq<nat>, x: nat)
    requires x !in s
    ensures Remove(s, x) == s
  {
    if |s| > 0 {
      assert s[..|s| - 1] + [s[|s| - 1]] == s;
      RemoveAbsent(s[..|s| - 1], x);
    }
  }

  // ----- what the indexes hold -----

  /** The ids below n of live notes filed under k in the given index, in id order. */
  function IdsWith(notes: seq<Note>, nullified: set<nat>, index: NoteIndex, k: nat, n: nat): (ids: seq<nat>)
    requires n <= |notes|
  {
    if n == 0 then []
    else
      IdsWith(notes, nullified, index, k, n - 1)
        + (if n - 1 !in nullified && KeyOf(notes[n - 1], index) == k then [n - 1] else [])
  }

  /** An id is listed exactly when it is below n, live and filed under k. */
  lemma {:induction false} IdsWithMembers(notes: seq<Note>, nullified: set<nat>, index: NoteIndex, k: nat, n: nat)
    requires n <= |notes|
    ensures forall x: nat :: x in IdsWith(notes, nullified, index, k, n) <==>
      x < n && x !in nullified && KeyOf(notes[x], index) == k
  {
    if n > 0 {
      IdsWithMembers(notes, nullified, index, k, n - 1);
    }
  }

  /** Only the first n notes matter. */
  lemma {:induction false} IdsWithPrefix(notes: seq<Note>, more: seq<Note>, nullified: set<nat>, index: NoteIndex, k: nat, n: nat)
    requires n <= |notes|
    ensures IdsWith(notes + more, nullified, index, k, n) == IdsWith(notes, nullified, index, k, n)
  {
    if n > 0 {
      IdsWithPrefix(notes, more, nullified, index, k, n - 1);
    }
  }

  /** The ids addNotes gives to `added`, first and up, that go under k in the given index. */
  function NewIds(added: seq<Note>, index: NoteIndex, k: nat, first: nat): seq<nat>
  {
    if |added| == 0 then []
    else
      NewIds(added[..|added| - 1], index, k, first)
        + (if KeyOf(added[|added| - 1], index) == k then [first + |added| - 1] else [])
  }

  /**
   * After addNotes, each index lists under k the ids it listed before,
   * followed by the new ids of the added notes filed under k, in input order.
   */
  lemma {:induction false} IdsWithAppend(notes: seq<Note>, added: seq<Note>, nullified: set<nat>, index: NoteIndex, k: nat)
    requires forall x :: x in nullified ==> x < |notes|
    ensures IdsWith(notes + added, nullified, index, k, |notes| + |added|)
         == IdsWith(notes, nullified, index, k, |notes|) + NewIds(added, index, k, |notes|)
  {
    if |added| == 0 {
      assert notes + added == notes;
    } else {
      var init := added[..|added| - 1];
      IdsWithAppend(notes, init, nullified, index, k);
      IdsWithPrefix(notes + init, [added[|added| - 1]], nullified, index, k, |notes| + |init|);
      assert notes + init + [added[|added| - 1]] == notes + added;
      assert (notes + added)[|notes| + |added| - 1] == added[|added| - 1];
    }
  }

  /** The notes whose ids are listed, in list order, that exist and meet q (getNotes' loop). */
  function FilterIds(notes: seq<Note>, ids: seq<nat>, q: Query): seq<Note>
  {
    if |ids| == 0 then []
    else
      var id := ids[|ids| - 1];
      FilterIds(notes, ids[..|ids| - 1], q)
        + (if id < |notes| && Matches(notes[id], q) then [notes[id]] else [])
  }

  /** The ids of the listed notes that exist and meet q (removeNullifiedNotes' loop). */
  function MarkedIds(notes: seq<Note>, ids: seq<nat>, q: Query): set<nat>
  {
    if |ids| == 0 then {}
    else
      var id := ids[|ids| - 1];
      MarkedIds(notes, ids[..|ids| - 1], q) + (if id < |notes| && Matches(notes[id], q) then {id} else {})
  }

  /** An id is marked exactly when it is listed, exists and its note meets q. */
  lemma {:induction false} MarkedIdsMembers(notes: seq<Note>, ids: seq<nat>, q: Query)
    ensures forall x :: x in MarkedIds(notes, ids, q) <==> x in ids && x < |notes| && Matches(notes[x], q)
  {
    if |ids| > 0 {
      MarkedIdsMembers(notes, ids[..|ids| - 1], q);
      assert ids == ids[..|ids| - 1] + [ids[|ids| - 1]];
    }
  }

  /** The reference query: every live note below n that meets q, in insertion order. */
  function Scan(notes: seq<Note>, nullified: set<nat>, q: Query, n: nat): seq<Note>
    requires n <= |notes|
  {
    if n == 0 then []
    else
      Scan(notes, nullified, q, n - 1)
        + (if n - 1 !in nullified && Matches(notes[n - 1], q) then [notes[n - 1]] else [])
  }

  /** The ids of the notes Scan returns. */
  function ScanIds(notes: seq<Note>, nullified: set<nat>, q: Query, n: nat): set<nat>
    requires n <= |notes|
  {
    if n == 0 then {}
    else ScanIds(notes, nullified, q, n - 1) + (if n - 1 !in nullified && Matches(notes[n - 1], q) then {n - 1} else {})
  }

  /** An id is among ScanIds exactly when it is below n, live and its note meets q. */
  lemma {:induction false} ScanIdsMembers(notes: seq<Note>, nullified: set<nat>, q: Query, n: nat)
    requires n <= |notes|
    ensures forall x: nat :: x in ScanIds(notes, nullified, q, n) <==> x < n && x !in nullified && Matches(notes[x], q)
  {
    if n > 0 {
      ScanIdsMembers(notes, nullified, q, n - 1);
    }
  }

  /**
   * Looking the candidates up in an index and filtering them gives the same
   * notes as scanning the whole table, when the query pins that index's key.
   */
  lemma {:induction false} IndexedQueryIsScan(notes: seq<Note>, nullified: set<nat>, q: Query, index: NoteIndex, k: nat, n: nat)
    requires n <= |notes| && Fixes(q, index, k)
    ensures FilterIds(notes, IdsWith(notes, nullified, index, k, n), q) == Scan(notes, nullified, q, n)
  {
    if n > 0 {
      IndexedQueryIsScan(notes, nullified, q, index, k, n - 1);
      var before := IdsWith(notes, nullified, index, k, n - 1);
      if n - 1 !in nullified && KeyOf(notes[n - 1], index) == k {
        assert (before + [n - 1])[..|before|] == before;
      } else {
        assert before + [] == before;
        assert Matches(notes[n - 1], q) ==> KeyOf(notes[n - 1], index) == k;
      }
    }
  }

  /** The index as rebuilt from the first n notes: each live note's id filed under its key, in id order. */
  function BuiltIndex(notes: seq<Note>, nullified: set<nat>, index: NoteIndex, n: nat): map<nat, seq<nat>>
    requires n <= |notes|
  {
    if n == 0 then map[]
    else
      var m := BuiltIndex(notes, nullified, index, n - 1);
      if n - 1 in nullified then m else MultiMapSet(m, KeyOf(notes[n - 1], index), n - 1)
  }

  /** Filing a live note n extends the index rebuilt from the notes before it. */
  lemma BuiltIndexStep(notes: seq<Note>, nullified: set<nat>, index: NoteIndex, n: nat)
    requires n < |notes| && n !in nullified
    ensures BuiltIndex(notes, nullified, index, n + 1)
         == MultiMapSet(BuiltIndex(notes, nullified, index, n), KeyOf(notes[n], index), n)
  {
  }

  /** Under key k, the rebuilt index lists exactly the live notes filed there, in id order. */
  lemma {:induction false} BuiltIndexValuesAt(notes: seq<Note>, nullified: set<nat>, index: NoteIndex, n: nat, k: nat)
    requires n <= |notes|
    ensures Values(BuiltIndex(notes, nullified, index, n), k) == IdsWith(notes, nullified, index, k, n)
  {
    if n > 0 {
      var m := BuiltIndex(notes, nullified, index, n - 1);
      var ids := IdsWith(notes, nullified, index, k, n - 1);
      assert Values(m, k) == ids by {
        BuiltIndexValuesAt(notes, nullified, index, n - 1, k);
      }
      var key := KeyOf(notes[n - 1], index);
      if n - 1 in nullified {
        assert BuiltIndex(notes, nullified, index, n) == m;
        assert IdsWith(notes, nullified, index, k, n) == ids + [];
      } else if k == key {
        assert BuiltIndex(notes, nullified, index, n) == MultiMapSet(m, key, n - 1);
        assert IdsWith(notes, nullified, index, k, n) == ids + [n - 1];
        assert n - 1 !in ids by {
          IdsWithMembers(notes, nullified, index, key, n - 1);
        }
      } else {
        assert BuiltIndex(notes, nullified, index, n) == MultiMapSet(m, key, n - 1);
        assert IdsWith(notes, nullified, index, k, n) == ids + [];
      }
    }
  }

  /** Under every key, the rebuilt index lists exactly the live notes filed there, in id order. */
  lemma BuiltIndexValues(notes: seq<Note>, nullified: set<nat>, index: NoteIndex, n: nat)
    requires n <= |notes|
    ensures forall k :: Values(BuiltIndex(notes, nullified, index, n), k) == IdsWith(notes, nullified, index, k, n)
  {
    forall k {
      BuiltIndexValuesAt(notes, nullified, index, n, k);
    }
  }

  /** The rebuilt index keeps no key without ids. */
  lemma {:induction false} BuiltIndexNonEmpty(notes: seq<Note>, nullified: set<nat>, index: NoteIndex, n: nat)
    requires n <= |notes|
    ensures forall k :: k in BuiltIndex(notes, nullified, index, n) ==> BuiltIndex(notes, nullified, index, n)[k] != []
  {
    if n > 0 {
      BuiltIndexNonEmpty(notes, nullified, index, n - 1);
    }
  }

  /** Only the first n notes matter. */
  lemma {:induction false} BuiltIndexPrefix(notes: seq<Note>, more: seq<Note>, nullified: set<nat>, index: NoteIndex, n: nat)
    requires n <= |notes|
    ensures BuiltIndex(notes + more, nullified, index, n) == BuiltIndex(notes, nullified, index, n)
  {
    if n > 0 {
      BuiltIndexPrefix(notes, more, nullified, index, n - 1);
      assert (notes + more)[n - 1] == notes[n - 1];
    }
  }

  /** Nullifying an id at or past n does not change the index of the first n notes. */
  lemma {:induction false} BuiltIndexIgnores(notes: seq<Note>, nullified: set<nat>, index: NoteIndex, n: nat, id: nat)
    requires n <= |notes| && n <= id
    ensures BuiltIndex(notes, nullified + {id}, index, n) == BuiltIndex(notes, nullified, index, n)
  {
    if n > 0 {
      BuiltIndexIgnores(notes, nullified, index, n - 1, id);
    }
  }

  /** x survives removing y exactly when it was there and is not y. */
  lemma {:induction false} RemoveMembers(s: seq<nat>, y: nat)
    ensures forall x :: x in Remove(s, y) <==> x in s && x != y
  {
    if |s| > 0 {
      RemoveMembers(s[..|s| - 1], y);
      assert s == s[..|s| - 1] + [s[|s| - 1]];
    }
  }

  /** Setting a new pair and deleting it again restores a map that keeps no empty keys. */
  lemma SetThenDelete(m: map<nat, seq<nat>>, k: nat, id: nat)
    requires id !in Values(m, k) && (k in m ==> m[k] != [])
    ensures MultiMapDelete(MultiMapSet(m, k, id), k, id) == m
  {
    var v := Values(m, k);
    RemoveSnoc(v, id, id);
    RemoveAbsent(v, id);
    assert v + [] == v;
    if v == [] {
      assert MultiMapSet(m, k, id) - {k} == m;
    } else {
      assert MultiMapSet(m, k, id)[k := v] == m;
    }
  }

  /** Setting one pair and deleting another, with different ids, commute. */
  lemma SetDeleteCommute(m: map<nat, seq<nat>>, ki: nat, i: nat, kd: nat, id: nat)
    requires i != id && i !in Values(m, ki)
    ensures MultiMapDelete(MultiMapSet(m, ki, i), kd, id) == MultiMapSet(MultiMapDelete(m, kd, id), ki, i)
  {
    var v := Values(m, kd);
    if ki == kd && id in v {
      RemoveSnoc(v, i, id);
      RemoveMembers(v, id);
      assert i !in Remove(v, id);
      assert Values(MultiMapDelete(m, kd, id), kd) == Remove(v, id);
    }
  }

  /** Deleting a live note's id under its key gives the index in which that note is nullified. */
  lemma {:induction false} NullifyBuilt(notes: seq<Note>, nullified: set<nat>, index: NoteIndex, id: nat, n: nat)
    requires id < n <= |notes| && id !in nullified
    ensures MultiMapDelete(BuiltIndex(notes, nullified, index, n), KeyOf(notes[id], index), id)
         == BuiltIndex(notes, nullified + {id}, index, n)
  {
    if n == id + 1 {
      NullifyLast(notes, nullified, index, id);
    } else {
      NullifyBuilt(notes, nullified, index, id, n - 1);
      NullifyBefore(notes, nullified, index, id, n);
    }
  }

  /** NullifyBuilt when the note is the last of the n. */
  lemma NullifyLast(notes: seq<Note>, nullified: set<nat>, index: NoteIndex, id: nat)
    requires id < |notes| && id !in nullified
    ensures MultiMapDelete(BuiltIndex(notes, nullified, index, id + 1), KeyOf(notes[id], index), id)
         == BuiltIndex(notes, nullified + {id}, index, id + 1)
  {
    var kd := KeyOf(notes[id], index);
    var m := BuiltIndex(notes, nullified, index, id);
    assert BuiltIndex(notes, nullified + {id}, index, id + 1) == m by {
      BuiltIndexIgnores(notes, nullified, index, id, id);
    }
    assert id !in Values(m, kd) by {
      BuiltIndexValues(notes, nullified, index, id);
      IdsWithMembers(notes, nullified, index, kd, id);
    }
    assert kd in m ==> m[kd] != [] by {
      BuiltIndexNonEmpty(notes, nullified, index, id);
    }
    SetThenDelete(m, kd, id);
  }

  /** NullifyBuilt carries over from the first n - 1 notes to the first n. */
  lemma NullifyBefore(notes: seq<Note>, nullified: set<nat>, index: NoteIndex, id: nat, n: nat)
    requires id + 1 < n <= |notes| && id !in nullified
    requires MultiMapDelete(BuiltIndex(notes, nullified, index, n - 1), KeyOf(notes[id], index), id)
          == BuiltIndex(notes, nullified + {id}, index, n - 1)
    ensures MultiMapDelete(BuiltIndex(notes, nullified, index, n), KeyOf(notes[id], index), id)
         == BuiltIndex(notes, nullified + {id}, index, n)
  {
    var i := n - 1;
    var m := BuiltIndex(notes, nullified, index, i);
    var m' := BuiltIndex(notes, nullified + {id}, index, i);
    if i !in nullified {
      var ki := KeyOf(notes[i], index);
      assert i !in Values(m, ki) by {
        BuiltIndexValuesAt(notes, nullified, index, i, ki);
        IdsWithMembers(notes, nullified, index, ki, i);
      }
      var kd := KeyOf(notes[id], index);
      assert MultiMapDelete(MultiMapSet(m, ki, i), kd, id) == MultiMapSet(m', ki, i) by {
        SetDeleteCommute(m, ki, i, kd, id);
      }
      assert BuiltIndex(notes, nullified, index, n) == MultiMapSet(m, ki, i);
      assert BuiltIndex(notes, nullified + {id}, index, n) == MultiMapSet(m', ki, i) by {
        assert i !in nullified + {id};
      }
    } else {
      assert BuiltIndex(notes, nullified, index, n) == m;
      assert BuiltIndex(notes, nullified + {id}, index, n) == m' by {
        assert i in nullified + {id};
      }
    }
  }

  /** The same for any note: deleting an id that is already nullified changes nothing. */
  lemma NullifyBuiltAny(notes: seq<Note>, nullified: set<nat>, index: NoteIndex, id: nat)
    requires id < |notes|
    ensures MultiMapDelete(BuiltIndex(notes, nullified, index, |notes|), KeyOf(notes[id], index), id)
         == BuiltIndex(notes, nullified + {id}, index, |notes|)
  {
    if id in nullified {
      assert nullified + {id} == nullified;
      BuiltIndexValues(notes, nullified, index, |notes|);
      IdsWithMembers(notes, nullified, index, KeyOf(notes[id], index), |notes|);
    } else {
      NullifyBuilt(notes, nullified, index, id, |notes|);
    }
  }

  /** getNotes looks up the owner's public key among the registered addresses; an unknown owner is no criterion. */
  function OwnerKey(addresses: map<nat, CompleteAddress>, owner: Option<nat>): Option<nat>
  {
    if owner.Some? && owner.value in addresses then Some(addresses[owner.value].publicKey) else None
  }

  /** The criteria getNotes applies for a filter, given the owner's public key (if found). */
  function QueryOf(filter: NoteFilter, publicKey: Option<nat>): Query
  {
    Query(filter.contractAddress, filter.txHash, filter.storageSlot, publicKey, None)
  }

  /** The criteria removeNullifiedNotes applies: the account's notes whose siloed nullifier is listed. */
  function NullifierQuery(account: nat, nullifiers: set<nat>): Query
  {
    Query(None, None, None, Some(account), Some(nullifiers))
  }

  const NoCriteria: Query := Query(None, None, None, None, None)

  class KVPxeDatabase {
    var blockHeader: Option<SerializedBlockHeader>
    var addresses: map<nat, CompleteAddress>
    var authWitnesses: map<nat, seq<nat>>
    var capsules: seq<seq<nat>>
    var contracts: map<nat, ContractDao>
    var notes: seq<Note>
    var nullifiedNotes: set<nat>
    var notesByContract: map<nat, seq<nat>>
    var notesByStorageSlot: map<nat, seq<nat>>
    var notesByTxHash: map<nat, seq<nat>>
    var notesByOwner: map<nat, seq<nat>>

    /**
     * The store's consistency: only existing notes are nullified, every index
     * lists exactly the live notes under their keys in id order, and a stored
     * header has every tree's root.
     */
    ghost predicate Valid()
      reads this`notes, this`nullifiedNotes, this`blockHeader
      reads this`notesByContract, this`notesByStorageSlot, this`notesByTxHash, this`notesByOwner
    {
      && (forall id :: id in nullifiedNotes ==> id < |notes|)
      && notesByContract == BuiltIndex(notes, nullifiedNotes, ByContract, |notes|)
      && notesByStorageSlot == BuiltIndex(notes, nullifiedNotes, ByStorageSlot, |notes|)
      && notesByTxHash == BuiltIndex(notes, nullifiedNotes, ByTxHash, |notes|)
      && notesByOwner == BuiltIndex(notes, nullifiedNotes, ByOwner, |notes|)
      && (blockHeader.Some? ==> HasAllRoots(blockHeader.value))
    }

    /** A fresh database: every table, index and singleton empty. */
    constructor ()
      ensures Valid()
      ensures blockHeader == None && addresses == map[] && authWitnesses == map[] && capsules == []
      ensures contracts == map[] && notes == [] && nullifiedNotes == {}
      ensures notesByContract == map[] && notesByStorageSlot == map[]
      ensures notesByTxHash == map[] && notesByOwner == map[]
    {
      blockHeader := None;
      addresses := map[];
      authWitnesses := map[];
      capsules := [];
      contracts := map[];
      notes := [];
      nullifiedNotes := {};
      notesByContract := map[];
      notesByStorageSlot := map[];
      notesByTxHash := map[];
      notesByOwner := map[];
    }

    method AddAuthWitness(messageHash: nat, authWitness: seq<nat>)
      modifies this`authWitnesses
      ensures authWitnesses == old(authWitnesses)[messageHash := authWitness]
    {
      authWitnesses := authWitnesses[messageHash := authWitness];
    }

    /** The witness stored for the message, or none. */
    method GetAuthWitness(messageHash: nat) returns (authWitness: seq<nat>)
      ensures messageHash in authWitnesses ==> authWitness == authWitnesses[messageHash]
      ensures messageHash !in authWitnesses ==> authWitness == []
    {
      authWitness := if messageHash in authWitnesses then authWitnesses[messageHash] else [];
    }

    method AddCapsule(capsule: seq<nat>)
      modifies this`capsules
      ensures capsules == old(capsules) + [capsule]
    {
      capsules := capsules + [capsule];
    }

    /** The most recently added capsule, taken off the stack; none when the stack is empty. */
    method PopCapsule() returns (capsule: Option<seq<nat>>)
      modifies this`capsules
      ensures old(capsules) == [] ==> capsule == None && capsules == []
      ensures old(capsules) != [] ==>
        capsule == Some(old(capsules)[|old(capsules)| - 1]) && capsules == old(capsules)[..|old(capsules)| - 1]
    {
      if |capsules| == 0 {
        capsule := None;
      } else {
        capsule := Some(capsules[|capsules| - 1]);
        capsules := capsules[..|capsules| - 1];
      }
    }

    method AddNote(note: Note)
      requires Valid()
      modifies this`notes, this`notesByContract, this`notesByStorageSlot, this`notesByTxHash, this`notesByOwner
      ensures Valid() && notes == old(notes) + [note] && nullifiedNotes == old(nullifiedNotes)
    {
      AddNotes([note]);
    }

    /**
     * addNotes: the notes are pushed in input order, so note i gets id
     * old |notes| + i, and each id is filed under the note's four keys.
     */
    method AddNotes(added: seq<Note>)
      requires Valid()
      modifies this`notes, this`notesByContract, this`notesByStorageSlot, this`notesByTxHash, this`notesByOwner
      ensures Valid() && notes == old(notes) + added && nullifiedNotes == old(nullifiedNotes)
    {
      var all := notes + added;
      assert notesByContract == BuiltIndex(all, nullifiedNotes, ByContract, |notes|) by {
        BuiltIndexPrefix(notes, added, nullifiedNotes, ByContract, |notes|);
      }
      assert notesByStorageSlot == BuiltIndex(all, nullifiedNotes, ByStorageSlot, |notes|) by {
        BuiltIndexPrefix(notes, added, nullifiedNotes, ByStorageSlot, |notes|);
      }
      assert notesByTxHash == BuiltIndex(all, nullifiedNotes, ByTxHash, |notes|) by {
        BuiltIndexPrefix(notes, added, nullifiedNotes, ByTxHash, |notes|);
      }
      assert notesByOwner == BuiltIndex(all, nullifiedNotes, ByOwner, |notes|) by {
        BuiltIndexPrefix(notes, added, nullifiedNotes, ByOwner, |notes|);
      }
      var byContract, byStorageSlot, byTxHash, byOwner :=
        FileNotes(notesByContract, notesByStorageSlot, notesByTxHash, notesByOwner, all, nullifiedNotes, |notes|);
      notes, notesByContract, notesByStorageSlot, notesByTxHash, notesByOwner :=
        all, byContract, byStorageSlot, byTxHash, byOwner;
    }

    /**
     * addNotes' loop: the notes from id `first` on are filed under their four
     * keys, which brings indexes up to date for the first notes up to date
     * for all of them.
     */
    static method FileNotes(
      byContract: map<nat, seq<nat>>, byStorageSlot: map<nat, seq<nat>>,
      byTxHash: map<nat, seq<nat>>, byOwner: map<nat, seq<nat>>,
      notes: seq<Note>, nullified: set<nat>, first: nat)
      returns (byContract': map<nat, seq<nat>>, byStorageSlot': map<nat, seq<nat>>,
               byTxHash': map<nat, seq<nat>>, byOwner': map<nat, seq<nat>>)
      requires first <= |notes| && forall x :: x in nullified ==> x < first
      requires byContract == BuiltIndex(notes, nullified, ByContract, first)
      requires byStorageSlot == BuiltIndex(notes, nullified, ByStorageSlot, first)
      requires byTxHash == BuiltIndex(notes, nullified, ByTxHash, first)
      requires byOwner == BuiltIndex(notes, nullified, ByOwner, first)
      ensures byContract' == BuiltIndex(notes, nullified, ByContract, |notes|)
      ensures byStorageSlot' == BuiltIndex(notes, nullified, ByStorageSlot, |notes|)
      ensures byTxHash' == BuiltIndex(notes, nullified, ByTxHash, |notes|)
      ensures byOwner' == BuiltIndex(notes, nullified, ByOwner, |notes|)
    {
      byContract', byStorageSlot', byTxHash', byOwner' := byContract, byStorageSlot, byTxHash, byOwner;
      var noteId := first;
      while noteId < |notes|
        invariant first <= noteId <= |notes|
        invariant byContract' == BuiltIndex(notes, nullified, ByContract, noteId)
        invariant byStorageSlot' == BuiltIndex(notes, nullified, ByStorageSlot, noteId)
        invariant byTxHash' == BuiltIndex(notes, nullified, ByTxHash, noteId)
        invariant byOwner' == BuiltIndex(notes, nullified, ByOwner, noteId)
      {
        var note := notes[noteId];
        assert noteId !in nullified;
        byContract' := MultiMapSet(byContract', note.contractAddress, noteId);
        byStorageSlot' := MultiMapSet(byStorageSlot', note.storageSlot, noteId);
        byTxHash' := MultiMapSet(byTxHash', note.txHash, noteId);
        byOwner' := MultiMapSet(byOwner', note.publicKey, noteId);
        assert byContract' == BuiltIndex(notes, nullified, ByContract, noteId + 1) by {
          BuiltIndexStep(notes, nullified, ByContract, noteId);
        }
        assert byStorageSlot' == BuiltIndex(notes, nullified, ByStorageSlot, noteId + 1) by {
          BuiltIndexStep(notes, nullified, ByStorageSlot, noteId);
        }
        assert byTxHash' == BuiltIndex(notes, nullified, ByTxHash, noteId + 1) by {
          BuiltIndexStep(notes, nullified, ByTxHash, noteId);
        }
        assert byOwner' == BuiltIndex(notes, nullified, ByOwner, noteId + 1) by {
          BuiltIndexStep(notes, nullified, ByOwner, noteId);
        }
        noteId := noteId + 1;
      }
    }

    /** #getAllNonNullifiedNotes: every note not marked nullified, in insertion order. */
    method GetAllNonNullifiedNotes() returns (result: seq<Note>)
      ensures result == Scan(notes, nullifiedNotes, NoCriteria, |notes|)
    {
      result := [];
      var index := 0;
      while index < |notes|
        invariant 0 <= index <= |notes|
        invariant result == Scan(notes, nullifiedNotes, NoCriteria, index)
      {
        if index !in nullifiedNotes {
          result := result + [notes[index]];
        }
        index := index + 1;
      }
    }

    /**
     * getNotes: the candidates come from the owner index (when the owner is
     * registered), else the tx hash, contract or storage slot index, and are
     * filtered by every criterion given; with none, every live note.
     */
    method GetNotes(filter: NoteFilter) returns (result: seq<Note>)
      requires Valid()
      ensures result == Scan(notes, nullifiedNotes, QueryOf(filter, OwnerKey(addresses, filter.owner)), |notes|)
    {
      var publicKey: Option<nat> := None;
      if filter.owner.Some? {
        var completeAddress := GetCompleteAddress(filter.owner.value);
        if completeAddress.Some? {
          publicKey := Some(completeAddress.value.publicKey);
        }
      }
      ghost var q := QueryOf(filter, publicKey);
      var initialNoteIds: Option<seq<nat>>;
      if publicKey.Some? {
        initialNoteIds := Some(Values(notesByOwner, publicKey.value));
        BuiltIndexValues(notes, nullifiedNotes, ByOwner, |notes|);
        IndexedQueryIsScan(notes, nullifiedNotes, q, ByOwner, publicKey.value, |notes|);
      } else if filter.txHash.Some? {
        initialNoteIds := Some(Values(notesByTxHash, filter.txHash.value));
        BuiltIndexValues(notes, nullifiedNotes, ByTxHash, |notes|);
        IndexedQueryIsScan(notes, nullifiedNotes, q, ByTxHash, filter.txHash.value, |notes|);
      } else if filter.contractAddress.Some? {
        initialNoteIds := Some(Values(notesByContract, filter.contractAddress.value));
        BuiltIndexValues(notes, nullifiedNotes, ByContract, |notes|);
        IndexedQueryIsScan(notes, nullifiedNotes, q, ByContract, filter.contractAddress.value, |notes|);
      } else if filter.storageSlot.Some? {
        initialNoteIds := Some(Values(notesByStorageSlot, filter.storageSlot.value));
        BuiltIndexValues(notes, nullifiedNotes, ByStorageSlot, |notes|);
        IndexedQueryIsScan(notes, nullifiedNotes, q, ByStorageSlot, filter.storageSlot.value, |notes|);
      } else {
        initialNoteIds := None;
      }

      if initialNoteIds.None? {
        assert q == NoCriteria;
        result := GetAllNonNullifiedNotes();
        return;
      }

      result := FilterCandidates(notes, initialNoteIds.value, filter, publicKey);
    }

    /** getNotes' loop over the candidate ids: the existing notes that meet every criterion given. */
    static method FilterCandidates(notes: seq<Note>, ids: seq<nat>, filter: NoteFilter, publicKey: Option<nat>)
      returns (result: seq<Note>)
      ensures result == FilterIds(notes, ids, QueryOf(filter, publicKey))
    {
      ghost var q := QueryOf(filter, publicKey);
      result := [];
      var j := 0;
      while j < |ids|
        invariant 0 <= j <= |ids|
        invariant result == FilterIds(notes, ids[..j], q)
      {
        var noteId := ids[j];
        assert ids[..j + 1][..j] == ids[..j];
        if noteId < |notes| {
          var note := notes[noteId];
          var keep :=
            && !(filter.contractAddress.Some? && note.contractAddress != filter.contractAddress.value)
            && !(filter.txHash.Some? && note.txHash != filter.txHash.value)
            && !(filter.storageSlot.Some? && note.storageSlot != filter.storageSlot.value)
            && !(publicKey.Some? && note.publicKey != publicKey.value);
          if keep {
            result := result + [note];
          }
        }
        j := j + 1;
      }
      assert ids[..|ids|] == ids;
    }

    /**
     * removeNullifiedNotes: of the account's indexed notes, those whose siloed
     * nullifier is listed are returned, marked nullified and dropped from all
     * four indexes.
     */
    method RemoveNullifiedNotes(nullifiers: set<nat>, account: nat) returns (removed: seq<Note>)
      requires Valid()
      modifies this`nullifiedNotes, this`notesByContract, this`notesByStorageSlot, this`notesByTxHash, this`notesByOwner
      ensures Valid() && notes == old(notes)
      ensures removed == Scan(notes, old(nullifiedNotes), NullifierQuery(account, nullifiers), |notes|)
      ensures nullifiedNotes == old(nullifiedNotes) + ScanIds(notes, old(nullifiedNotes), NullifierQuery(account, nullifiers), |notes|)
    {
      ghost var q := NullifierQuery(account, nullifiers);
      ghost var nullified0 := nullifiedNotes;
      var notesIds := Values(notesByOwner, account);
      assert notesIds == IdsWith(notes, nullifiedNotes, ByOwner, account, |notes|) by {
        BuiltIndexValues(notes, nullifiedNotes, ByOwner, |notes|);
      }
      assert forall x :: x in notesIds ==> x < |notes| && notes[x].publicKey == account by {
        IdsWithMembers(notes, nullifiedNotes, ByOwner, account, |notes|);
      }
      var nullified, byContract, byStorageSlot, byTxHash, byOwner;
      nullified, byContract, byStorageSlot, byTxHash, byOwner, removed :=
        NullifyNotes(notesIds, nullifiers, account, notes, nullifiedNotes,
          notesByContract, notesByStorageSlot, notesByTxHash, notesByOwner);
      assert removed == Scan(notes, nullified0, q, |notes|) by {
        IndexedQueryIsScan(notes, nullified0, q, ByOwner, account, |notes|);
      }
      assert nullified == nullified0 + ScanIds(notes, nullified0, q, |notes|) by {
        NullifiedIdsAreScanIds(notes, nullified0, q, account);
      }
      assert forall x :: x in nullified ==> x < |notes| by {
        MarkedIdsMembers(notes, notesIds, q);
      }
      nullifiedNotes, notesByContract, notesByStorageSlot, notesByTxHash, notesByOwner :=
        nullified, byContract, byStorageSlot, byTxHash, byOwner;
    }

    /**
     * removeNullifiedNotes' loop over the account's note ids: a note whose
     * siloed nullifier is listed is returned, marked nullified and deleted
     * from the four indexes.
     */
    static method NullifyNotes(
      ids: seq<nat>, nullifiers: set<nat>, account: nat, notes: seq<Note>, nullified: set<nat>,
      byContract: map<nat, seq<nat>>, byStorageSlot: map<nat, seq<nat>>,
      byTxHash: map<nat, seq<nat>>, byOwner: map<nat, seq<nat>>)
      returns (nullified': set<nat>,
               byContract': map<nat, seq<nat>>, byStorageSlot': map<nat, seq<nat>>,
               byTxHash': map<nat, seq<nat>>, byOwner': map<nat, seq<nat>>,
               removed: seq<Note>)
      requires forall x :: x in ids ==> x < |notes| && notes[x].publicKey == account
      requires byContract == BuiltIndex(notes, nullified, ByContract, |notes|)
      requires byStorageSlot == BuiltIndex(notes, nullified, ByStorageSlot, |notes|)
      requires byTxHash == BuiltIndex(notes, nullified, ByTxHash, |notes|)
      requires byOwner == BuiltIndex(notes, nullified, ByOwner, |notes|)
      ensures removed == FilterIds(notes, ids, NullifierQuery(account, nullifiers))
      ensures nullified' == nullified + MarkedIds(notes, ids, NullifierQuery(account, nullifiers))
      ensures byContract' == BuiltIndex(notes, nullified', ByContract, |notes|)
      ensures byStorageSlot' == BuiltIndex(notes, nullified', ByStorageSlot, |notes|)
      ensures byTxHash' == BuiltIndex(notes, nullified', ByTxHash, |notes|)
      ensures byOwner' == BuiltIndex(notes, nullified', ByOwner, |notes|)
    {
      ghost var q := NullifierQuery(account, nullifiers);
      nullified', byContract', byStorageSlot', byTxHash', byOwner' := nullified, byContract, byStorageSlot, byTxHash, byOwner;
      removed := [];
      var j := 0;
      assert nullified + MarkedIds(notes, ids[..0], q) == nullified;
      while j < |ids|
        invariant 0 <= j <= |ids|
        invariant removed == FilterIds(notes, ids[..j], q)
        invariant nullified' == nullified + MarkedIds(notes, ids[..j], q)
        invariant byContract' == BuiltIndex(notes, nullified', ByContract, |notes|)
        invariant byStorageSlot' == BuiltIndex(notes, nullified', ByStorageSlot, |notes|)
        invariant byTxHash' == BuiltIndex(notes, nullified', ByTxHash, |notes|)
        invariant byOwner' == BuiltIndex(notes, nullified', ByOwner, |notes|)
      {
        var noteId := ids[j];
        assert ids[..j + 1][..j] == ids[..j];
        assert noteId in ids;
        var note := notes[noteId];
        if note.siloedNullifier in nullifiers {
          NullifyBuiltAny(notes, nullified', ByOwner, noteId);
          NullifyBuiltAny(notes, nullified', ByTxHash, noteId);
          NullifyBuiltAny(notes, nullified', ByContract, noteId);
          NullifyBuiltAny(notes, nullified', ByStorageSlot, noteId);
          removed := removed + [note];
          nullified' := nullified' + {noteId};
          byOwner' := MultiMapDelete(byOwner', account, noteId);
          byTxHash' := MultiMapDelete(byTxHash', note.txHash, noteId);
          byContract' := MultiMapDelete(byContract', note.contractAddress, noteId);
          byStorageSlot' := MultiMapDelete(byStorageSlot', note.storageSlot, noteId);
        }
        j := j + 1;
      }
      assert ids[..|ids|] == ids;
    }

    /** getTreeRoots: each tree's root from the stored header; fails until one is stored. */
    method GetTreeRoots() returns (r: Result<map<MerkleTreeId, nat>, string>)
      requires Valid()
      ensures blockHeader.None? ==> r == Failure("Tree roots not set")
      ensures blockHeader.Some? ==> r.Success? && r.value == blockHeader.value.roots
    {
      if blockHeader.None? {
        return Failure("Tree roots not set");
      }
      var roots := blockHeader.value.roots;
      var treeRoots := map[
        Archive := roots[Archive],
        ContractTree := roots[ContractTree],
        L1ToL2MessagesTree := roots[L1ToL2MessagesTree],
        NoteHashTree := roots[NoteHashTree],
        PublicDataTree := roots[PublicDataTree],
        NullifierTree := roots[NullifierTree]];
      forall id: MerkleTreeId
        ensures id in treeRoots && treeRoots[id] == roots[id]
      {
        match id
        case ContractTree =>
        case NullifierTree =>
        case NoteHashTree =>
        case PublicDataTree =>
        case L1ToL2MessagesTree =>
        case Archive =>
      }
      assert treeRoots == roots;
      r := Success(treeRoots);
    }

    method SetBlockHeader(h: BlockHeader)
      requires Valid()
      modifies this`blockHeader
      ensures Valid() && blockHeader == Some(Serialize(h))
    {
      SerializeHasAllRoots(h);
      blockHeader := Some(Serialize(h));
    }

    /** getBlockHeader: the stored header, with the vk tree root zero; fails until one is stored. */
    method GetBlockHeader() returns (r: Result<BlockHeader, string>)
      requires Valid()
      ensures blockHeader.None? ==> r == Failure("Block header not set")
      ensures blockHeader.Some? ==> r == Success(Deserialize(blockHeader.value))
    {
      if blockHeader.None? {
        return Failure("Block header not set");
      }
      var value := blockHeader.value;
      r := Success(BlockHeader(
        value.roots[NoteHashTree],
        value.roots[NullifierTree],
        value.roots[ContractTree],
        value.roots[L1ToL2MessagesTree],
        value.roots[Archive],
        0,
        value.roots[PublicDataTree],
        value.globalVariablesHash));
    }

    /** addCompleteAddress: stored only when the address is new; says whether it was. */
    method AddCompleteAddress(completeAddress: CompleteAddress) returns (added: bool)
      modifies this`addresses
      ensures added <==> completeAddress.address !in old(addresses)
      ensures addresses == if added then old(addresses)[completeAddress.address := completeAddress] else old(addresses)
    {
      if completeAddress.address in addresses {
        added := false;
      } else {
        addresses := addresses[completeAddress.address := completeAddress];
        added := true;
      }
    }

    method GetCompleteAddress(address: nat) returns (r: Option<CompleteAddress>)
      ensures address in addresses ==> r == Some(addresses[address])
      ensures address !in addresses ==> r == None
    {
      r := if address in addresses then Some(addresses[address]) else None;
    }

    /** Every registered address, once each (in the store's key order, which is not modelled). */
    method GetCompleteAddresses() returns (all: seq<CompleteAddress>)
      ensures |all| == |addresses|
      ensures forall a :: a in all <==> a in addresses.Values
    {
      all := ValuesOf(addresses);
    }

    method AddContract(contract: ContractDao)
      modifies this`contracts
      ensures contracts == old(contracts)[contract.address := contract]
    {
      contracts := contracts[contract.address := contract];
    }

    method GetContract(address: nat) returns (r: Option<ContractDao>)
      ensures address in contracts ==> r == Some(contracts[address])
      ensures address !in contracts ==> r == None
    {
      r := if address in contracts then Some(contracts[address]) else None;
    }

    /** Every stored contract, once each (in the store's key order, which is not modelled). */
    method GetContracts() returns (all: seq<ContractDao>)
      ensures |all| == |contracts|
      ensures forall c :: c in all <==> c in contracts.Values
    {
      all := ValuesOf(contracts);
    }
  }

  /** The ids the nullification loop marks are those of the notes Scan returns. */
  lemma NullifiedIdsAreScanIds(notes: seq<Note>, nullified: set<nat>, q: Query, account: nat)
    requires q.publicKey == Some(account)
    ensures MarkedIds(notes, IdsWith(notes, nullified, ByOwner, account, |notes|), q) == ScanIds(notes, nullified, q, |notes|)
  {
    IdsWithMembers(notes, nullified, ByOwner, account, |notes|);
    MarkedIdsMembers(notes, IdsWith(notes, nullified, ByOwner, account, |notes|), q);
    ScanIdsMembers(notes, nullified, q, |notes|);
  }

  /** A map's values listed one per key, in some order of the keys. */
  method ValuesOf<V(==)>(m: map<nat, V>) returns (all: seq<V>)
    ensures |all| == |m|
    ensures forall v :: v in all <==> v in m.Values
  {
    all := [];
    var rest := m.Keys;
    ghost var done: set<nat> := {};
    while rest != {}
      invariant rest + done == m.Keys && rest !! done
      invariant |all| == |done|
      invariant forall v :: v in all <==> exists k :: k in done && m[k] == v
      decreases |rest|
    {
      var k :| k in rest;
      all := all + [m[k]];
      rest := rest - {k};
      done := done + {k};
    }
  }
}
