/**
 * The reference (one leaf at a time) insertion of an indexed Merkle tree.
 *
 * Slots are assigned in insertion order; each stored preimage also links to
 * the slot holding the next-higher key, so the preimages form a sorted
 * singly-linked list laid over the slot arena. Hashing is a parameter of the
 * tree (an arbitrary function), and the tree's root recomputation is not
 * modelled: a write to a slot records the slot's leaf hash only.
 */
module IndexedTree {
  import opened Wrappers
  import opened Digits

  /** A leaf: its ordering key and an opaque payload (a public-data value, say). */
  datatype Leaf = Leaf(key: nat, value: nat)

  /** What a slot stores: the leaf plus the link to the leaf with the next-higher key. */
  datatype Preimage = Preimage(leaf: Leaf, nextKey: nat, nextIndex: nat)

  /** Result of the low-leaf search: a slot index, and whether it holds the key itself. */
  datatype LowLeaf = LowLeaf(index: nat, alreadyPresent: bool)

  datatype TreeError =
    | BeyondMaxIndex        // "Can't append beyond max index"
    | PreviousLeafNotFound  // "Previous leaf not found!"
    | IndexOutOfBounds      // a slot write beyond the tree's last index

  /** The leaf hash function the tree is built with. */
  type Hasher = Preimage -> nat

  /** The all-zero preimage: the sentinel in slot 0, and what every empty slot hashes as. */
  const EmptyPreimage := Preimage(Leaf(0, 0), 0, 0)

  /**
   * The tree state the insertion reads and writes: the latest preimage per
   * slot (None for a slot never written), the latest leaf hash per slot, the
   * committed size and the uncommitted (cached) size.
   */
  datatype Tree = Tree(
    maxIndex: nat,
    slots: seq<Option<Preimage>>,
    hashes: seq<nat>,
    size: nat,
    cachedSize: Option<nat>)
  {
    /** The number of leaves including uncommitted ones: `cachedSize ?? size`. */
    function NumLeaves(): nat {
      cachedSize.GetOr(size)
    }
  }

  /** Shape invariant: one slot per index up to maxIndex, nothing stored past the size. */
  predicate WellFormed(t: Tree)
  {
    && |t.slots| == t.maxIndex + 1
    && |t.hashes| == t.maxIndex + 1
    && t.NumLeaves() <= t.maxIndex + 1
    && forall i :: t.NumLeaves() <= i < |t.slots| ==> t.slots[i].None?
  }

  function KeyAt(s: seq<Option<Preimage>>, i: nat): nat
    requires i < |s| && s[i].Some?
  {
    s[i].value.leaf.key
  }

  /**
   * The slot below n whose key is the greatest key not above `key`, the
   * first such slot on a tie, or None when every stored key exceeds `key`.
   */
  function GreatestAtMost(s: seq<Option<Preimage>>, n: nat, key: nat): (r: Option<nat>)
    requires n <= |s|
    ensures r.None? <==> forall j :: 0 <= j < n && s[j].Some? ==> KeyAt(s, j) > key
    ensures r.Some? ==>
      && r.value < n && s[r.value].Some? && KeyAt(s, r.value) <= key
      && (forall j :: 0 <= j < n && s[j].Some? && KeyAt(s, j) <= key ==> KeyAt(s, j) <= KeyAt(s, r.value))
      && (forall j :: 0 <= j < r.value && s[j].Some? && KeyAt(s, j) <= key ==> KeyAt(s, j) < KeyAt(s, r.value))
    decreases n
  {
    if n == 0 then None
    else
      var r := GreatestAtMost(s, n - 1, key);
      if s[n - 1].Some? && KeyAt(s, n - 1) <= key && (r.None? || KeyAt(s, r.value) < KeyAt(s, n - 1))
      then Some(n - 1)
      else r
  }

  /**
   * Low-leaf search over the latest state (the base class's
   * findIndexOfPreviousKey with uncommitted leaves included): the slot with the
   * greatest key not above `key`, flagged when that key equals `key`; slot 0
   * when there is none.
   */
  function FindIndexOfPreviousKey(s: seq<Option<Preimage>>, n: nat, key: nat): (r: LowLeaf)
    requires n <= |s|
    ensures r.alreadyPresent <==> exists j :: 0 <= j < n && s[j].Some? && KeyAt(s, j) == key
    ensures r.index < n || (r.index == 0 && !r.alreadyPresent)
    ensures (exists j :: 0 <= j < n && s[j].Some? && KeyAt(s, j) <= key) ==>
      && r.index < n && s[r.index].Some? && KeyAt(s, r.index) <= key
      && forall j :: 0 <= j < n && s[j].Some? && KeyAt(s, j) <= key ==> KeyAt(s, j) <= KeyAt(s, r.index)
  {
    match GreatestAtMost(s, n, key)
    case None => LowLeaf(0, false)
    case Some(i) => LowLeaf(i, KeyAt(s, i) == key)
  }

  /**
   * The base class's slot write: refuses an index past maxIndex; otherwise
   * records the leaf's hash and grows the uncommitted size to index + 1 when
   * the index is at or past it.
   */
  function UpdateLeaf(t: Tree, hash: Hasher, p: Preimage, index: nat): (r: (Tree, Outcome<TreeError>))
    requires |t.hashes| == t.maxIndex + 1
  {
    if index > t.maxIndex then (t, Fail(IndexOutOfBounds))
    else
      var grown := if index >= t.NumLeaves() then Some(index + 1) else t.cachedSize;
      (t.(hashes := t.hashes[index := hash(p)], cachedSize := grown), Pass)
  }

  /**
   * appendLeaf: the state after appending one leaf and whether it threw.
   * A thrown error leaves whatever was already written in place.
   */
  function AppendLeaf(t: Tree, hash: Hasher, leaf: Leaf): (r: (Tree, Outcome<TreeError>))
    requires WellFormed(t)
    ensures WellFormed(r.0) && r.0.maxIndex == t.maxIndex && r.0.size == t.size
  {
    if leaf.key == 0 then
      var newSize := t.NumLeaves() + 1;
      if newSize - 1 > t.maxIndex then (t, Fail(BeyondMaxIndex))
      else (t.(cachedSize := Some(newSize)), Pass)
    else
      var low := FindIndexOfPreviousKey(t.slots, t.NumLeaves(), leaf.key);
      var lowPreimage := t.slots[low.index];
      if lowPreimage.None? then (t, Fail(PreviousLeafNotFound))
      else
        var newPreimage := Preimage(leaf, lowPreimage.value.nextKey, lowPreimage.value.nextIndex);
        if low.alreadyPresent then (t, Pass)
        else
          var currentSize := t.NumLeaves();
          var newLowPreimage := Preimage(lowPreimage.value.leaf, leaf.key, currentSize);
          var slots := if currentSize <= t.maxIndex then t.slots[currentSize := Some(newPreimage)] else t.slots;
          var t1 := t.(slots := slots[low.index := Some(newLowPreimage)]);
          var (t2, r2) := UpdateLeaf(t1, hash, newLowPreimage, low.index);
          if r2.Fail? then (t2, r2)
          else UpdateLeaf(t2, hash, newPreimage, t2.NumLeaves())
  }

  /** appendLeaves: appendLeaf on each leaf in order, stopping at the first error. */
  function AppendLeaves(t: Tree, hash: Hasher, leaves: seq<Leaf>): (r: (Tree, Outcome<TreeError>))
    requires WellFormed(t)
    ensures WellFormed(r.0)
    decreases |leaves|
  {
    if leaves == [] then (t, Pass)
    else
      var (t1, r1) := AppendLeaf(t, hash, leaves[0]);
      if r1.Fail? then (t1, r1) else AppendLeaves(t1, hash, leaves[1..])
  }

  // ----- the sorted linked list laid over the slots -----

  /**
   * Slot i (non-empty, below n) links to its successor: either it holds the
   * greatest stored key and its link is (0, 0), or its link names a stored
   * slot holding a greater key with no stored key strictly in between.
   */
  ghost predicate LinksToSuccessor(s: seq<Option<Preimage>>, n: nat, i: nat)
    requires n <= |s| && i < n && s[i].Some?
  {
    var p := s[i].value;
    if p.nextKey == 0 then
      && p.nextIndex == 0
      && forall j :: 0 <= j < n && s[j].Some? ==> KeyAt(s, j) <= p.leaf.key
    else
      && p.nextIndex < n && s[p.nextIndex].Some? && KeyAt(s, p.nextIndex) == p.nextKey
      && p.leaf.key < p.nextKey
      && forall j :: 0 <= j < n && s[j].Some? ==> !(p.leaf.key < KeyAt(s, j) < p.nextKey)
  }

  /** Stored keys are pairwise distinct. */
  ghost predicate DistinctKeys(s: seq<Option<Preimage>>, n: nat)
    requires n <= |s|
  {
    forall i, j :: 0 <= i < n && 0 <= j < n && i != j && s[i].Some? && s[j].Some? ==> KeyAt(s, i) != KeyAt(s, j)
  }

  /**
   * The indexed-tree invariant: slot 0 holds the key-0 sentinel, keys are
   * distinct, and every stored preimage links to its successor.
   */
  ghost predicate SortedLinkedList(s: seq<Option<Preimage>>, n: nat)
    requires n <= |s|
  {
    && 0 < n && s[0].Some? && KeyAt(s, 0) == 0
    && DistinctKeys(s, n)
    && forall i :: 0 <= i < n && s[i].Some? ==> LinksToSuccessor(s, n, i)
  }

  ghost predicate Sorted(t: Tree)
  {
    WellFormed(t) && SortedLinkedList(t.slots, t.NumLeaves())
  }

  // ----- what one appendLeaf does -----

  /** Key 0 consumes a slot and writes nothing, unless the tree is already full. */
  lemma AppendZeroKey(t: Tree, hash: Hasher, leaf: Leaf)
    requires WellFormed(t) && leaf.key == 0
    ensures var (t', r) := AppendLeaf(t, hash, leaf);
      && t'.slots == t.slots && t'.hashes == t.hashes
      && (r.Pass? <==> t.NumLeaves() <= t.maxIndex)
      && (r.Pass? ==> t'.NumLeaves() == t.NumLeaves() + 1)
      && (r.Fail? ==> r.error == BeyondMaxIndex && t' == t)
  {
  }

  /** A key that is already stored changes nothing. */
  lemma AppendAlreadyPresent(t: Tree, hash: Hasher, leaf: Leaf, j: nat)
    requires WellFormed(t) && leaf.key != 0
    requires j < t.NumLeaves() && t.slots[j].Some? && KeyAt(t.slots, j) == leaf.key
    ensures AppendLeaf(t, hash, leaf) == (t, Pass)
  {
  }

  /**
   * 'Previous leaf not found!' is thrown exactly when no stored key is at most
   * the new key and slot 0 is empty; nothing is changed then.
   */
  lemma AppendPreviousLeafNotFound(t: Tree, hash: Hasher, leaf: Leaf)
    requires WellFormed(t) && leaf.key != 0
    ensures var (t', r) := AppendLeaf(t, hash, leaf);
      && (r == Fail(PreviousLeafNotFound) <==>
           (forall j :: 0 <= j < t.NumLeaves() && t.slots[j].Some? ==> KeyAt(t.slots, j) > leaf.key)
           && t.slots[0].None?)
      && (r == Fail(PreviousLeafNotFound) ==> t' == t)
  {
    var n := t.NumLeaves();
    var low := FindIndexOfPreviousKey(t.slots, n, leaf.key);
    if exists j :: 0 <= j < n && t.slots[j].Some? && KeyAt(t.slots, j) <= leaf.key {
      assert t.slots[low.index].Some?;
    }
  }

  /**
   * A new key is spliced in after its low leaf: the new leaf takes the low
   * leaf's old link and goes to slot `size`, the low leaf keeps its own leaf
   * and now links to (new key, size), both leaf hashes are rewritten, no other
   * slot changes and the size grows by one.
   */
  lemma AppendSplice(t: Tree, hash: Hasher, leaf: Leaf, lowIndex: nat)
    requires WellFormed(t) && leaf.key != 0
    requires t.NumLeaves() <= t.maxIndex
    requires lowIndex < t.NumLeaves() && t.slots[lowIndex].Some?
    requires lowIndex == FindIndexOfPreviousKey(t.slots, t.NumLeaves(), leaf.key).index
    requires forall j :: 0 <= j < t.NumLeaves() && t.slots[j].Some? ==> KeyAt(t.slots, j) != leaf.key
    ensures var (t', r) := AppendLeaf(t, hash, leaf);
      var n := t.NumLeaves();
      var old_low := t.slots[lowIndex].value;
      var newLeaf := Preimage(leaf, old_low.nextKey, old_low.nextIndex);
      var newLow := Preimage(old_low.leaf, leaf.key, n);
      && r == Pass
      && t'.slots[n] == Some(newLeaf)
      && t'.slots[lowIndex] == Some(newLow)
      && (forall i :: 0 <= i < |t.slots| && i != n && i != lowIndex ==> t'.slots[i] == t.slots[i])
      && t'.hashes == t.hashes[lowIndex := hash(newLow)][n := hash(newLeaf)]
      && t'.NumLeaves() == n + 1
  {
  }

  /**
   * A new key arriving when every slot is used: the source writes the low
   * leaf's new link before the second slot write throws, so the low leaf is
   * left pointing at a slot that was never written.
   */
  lemma AppendWhenFull(t: Tree, hash: Hasher, leaf: Leaf, lowIndex: nat)
    requires WellFormed(t) && leaf.key != 0
    requires t.NumLeaves() == t.maxIndex + 1
    requires lowIndex < t.NumLeaves() && t.slots[lowIndex].Some?
    requires lowIndex == FindIndexOfPreviousKey(t.slots, t.NumLeaves(), leaf.key).index
    requires forall j :: 0 <= j < t.NumLeaves() && t.slots[j].Some? ==> KeyAt(t.slots, j) != leaf.key
    ensures var (t', r) := AppendLeaf(t, hash, leaf);
      var newLow := Preimage(t.slots[lowIndex].value.leaf, leaf.key, t.NumLeaves());
      && r == Fail(IndexOutOfBounds)
      && t'.slots == t.slots[lowIndex := Some(newLow)]
      && t'.hashes == t.hashes[lowIndex := hash(newLow)]
      && t'.NumLeaves() == t.NumLeaves()
  {
  }

  // ----- insertion keeps the sorted linked list -----

  /** Facts about s' = s with slot n and then slot low overwritten, low keeping its leaf. */
  lemma SpliceKeys(s: seq<Option<Preimage>>, n: nat, low: nat, leaf: Leaf, newLeaf: Preimage, newLow: Preimage)
    requires n < |s| && low < n && s[low].Some?
    requires newLeaf.leaf == leaf && newLow.leaf == s[low].value.leaf
    ensures var s' := s[n := Some(newLeaf)][low := Some(newLow)];
      && |s'| == |s|
      && s'[n] == Some(newLeaf) && KeyAt(s', n) == leaf.key
      && forall i :: 0 <= i < n ==> s'[i].Some? == s[i].Some? && (s[i].Some? ==> KeyAt(s', i) == KeyAt(s, i))
  {
  }

  /**
   * Splicing key K after the slot `low` holding the greatest stored key below
   * K keeps the sorted linked list, now over n + 1 slots.
   */
  lemma {:induction false} SpliceKeepsSorted(s: seq<Option<Preimage>>, n: nat, low: nat, leaf: Leaf)
    requires n < |s| && SortedLinkedList(s, n)
    requires low < n && s[low].Some? && KeyAt(s, low) < leaf.key
    requires forall j :: 0 <= j < n && s[j].Some? ==> KeyAt(s, j) != leaf.key
    requires forall j :: 0 <= j < n && s[j].Some? && KeyAt(s, j) <= leaf.key ==> KeyAt(s, j) <= KeyAt(s, low)
    ensures var p := s[low].value;
      SortedLinkedList(s[n := Some(Preimage(leaf, p.nextKey, p.nextIndex))][low := Some(Preimage(p.leaf, leaf.key, n))], n + 1)
  {
    var p := s[low].value;
    var K := leaf.key;
    var newLeaf := Preimage(leaf, p.nextKey, p.nextIndex);
    var newLow := Preimage(p.leaf, K, n);
    var s' := s[n := Some(newLeaf)][low := Some(newLow)];
    SpliceKeys(s, n, low, leaf, newLeaf, newLow);
    assert s'[0].Some? && KeyAt(s', 0) == 0;
    assert DistinctKeys(s', n + 1) by {
      forall i, j | 0 <= i < n + 1 && 0 <= j < n + 1 && i != j && s'[i].Some? && s'[j].Some?
        ensures KeyAt(s', i) != KeyAt(s', j)
      {
        if i < n && j < n {
          assert KeyAt(s, i) != KeyAt(s, j);
        }
      }
    }
    forall i | 0 <= i < n + 1 && s'[i].Some?
      ensures LinksToSuccessor(s', n + 1, i)
    {
      if i == n {
        NewLeafLinks(s, n, low, leaf);
      } else if i == low {
        assert LinksToSuccessor(s', n + 1, i) by {
          forall j | 0 <= j < n + 1 && s'[j].Some?
            ensures !(p.leaf.key < KeyAt(s', j) < K)
          {
          }
        }
      } else {
        OtherLinks(s, n, low, leaf, i);
      }
    }
  }

  /** The new leaf, holding the low leaf's old link, links to its successor. */
  lemma NewLeafLinks(s: seq<Option<Preimage>>, n: nat, low: nat, leaf: Leaf)
    requires n < |s| && SortedLinkedList(s, n)
    requires low < n && s[low].Some? && KeyAt(s, low) < leaf.key
    requires forall j :: 0 <= j < n && s[j].Some? ==> KeyAt(s, j) != leaf.key
    requires forall j :: 0 <= j < n && s[j].Some? && KeyAt(s, j) <= leaf.key ==> KeyAt(s, j) <= KeyAt(s, low)
    ensures var p := s[low].value;
      var s' := s[n := Some(Preimage(leaf, p.nextKey, p.nextIndex))][low := Some(Preimage(p.leaf, leaf.key, n))];
      LinksToSuccessor(s', n + 1, n)
  {
    var p := s[low].value;
    var newLeaf := Preimage(leaf, p.nextKey, p.nextIndex);
    var newLow := Preimage(p.leaf, leaf.key, n);
    var s' := s[n := Some(newLeaf)][low := Some(newLow)];
    SpliceKeys(s, n, low, leaf, newLeaf, newLow);
    assert LinksToSuccessor(s, n, low);
    if p.nextKey != 0 {
      assert p.nextIndex != low;
      assert leaf.key < p.nextKey;
      forall j | 0 <= j < n + 1 && s'[j].Some?
        ensures !(leaf.key < KeyAt(s', j) < p.nextKey)
      {
        if j < n {
          assert !(p.leaf.key < KeyAt(s, j) < p.nextKey);
        }
      }
    }
  }

  /** A slot other than the low leaf and the new leaf keeps a valid link. */
  lemma OtherLinks(s: seq<Option<Preimage>>, n: nat, low: nat, leaf: Leaf, i: nat)
    requires n < |s| && SortedLinkedList(s, n)
    requires low < n && s[low].Some? && KeyAt(s, low) < leaf.key
    requires forall j :: 0 <= j < n && s[j].Some? ==> KeyAt(s, j) != leaf.key
    requires forall j :: 0 <= j < n && s[j].Some? && KeyAt(s, j) <= leaf.key ==> KeyAt(s, j) <= KeyAt(s, low)
    requires i < n && i != low && s[i].Some?
    ensures var p := s[low].value;
      var s' := s[n := Some(Preimage(leaf, p.nextKey, p.nextIndex))][low := Some(Preimage(p.leaf, leaf.key, n))];
      LinksToSuccessor(s', n + 1, i)
  {
    var p := s[low].value;
    var newLeaf := Preimage(leaf, p.nextKey, p.nextIndex);
    var newLow := Preimage(p.leaf, leaf.key, n);
    var s' := s[n := Some(newLeaf)][low := Some(newLow)];
    SpliceKeys(s, n, low, leaf, newLeaf, newLow);
    var q := s[i].value;
    assert s'[i] == s[i];
    assert LinksToSuccessor(s, n, i);
    assert KeyAt(s, i) != KeyAt(s, low);
    if q.nextKey == 0 {
      assert KeyAt(s, low) <= q.leaf.key;
      forall j | 0 <= j < n + 1 && s'[j].Some?
        ensures KeyAt(s', j) <= q.leaf.key
      {
        if j < n {
          assert KeyAt(s, j) <= q.leaf.key;
        }
      }
    } else {
      assert KeyAt(s', q.nextIndex) == q.nextKey;
      forall j | 0 <= j < n + 1 && s'[j].Some?
        ensures !(q.leaf.key < KeyAt(s', j) < q.nextKey)
      {
        if j < n {
          assert !(q.leaf.key < KeyAt(s, j) < q.nextKey);
        } else {
          assert !(q.leaf.key < KeyAt(s, low) < q.nextKey);
        }
      }
    }
  }

  /** Counting one more slot that is empty keeps the sorted linked list. */
  lemma {:induction false} EmptySlotKeepsSorted(s: seq<Option<Preimage>>, n: nat)
    requires n < |s| && SortedLinkedList(s, n) && s[n].None?
    ensures SortedLinkedList(s, n + 1)
  {
    DistinctOverEmptySlot(s, n);
    assert forall i :: 0 <= i < n + 1 && s[i].Some? ==> LinksToSuccessor(s, n + 1, i) by {
      forall i | 0 <= i < n + 1 && s[i].Some?
        ensures LinksToSuccessor(s, n + 1, i)
      {
        LinkOverEmptySlot(s, n, i);
      }
    }
    assert s[0].Some? && KeyAt(s, 0) == 0;
  }

  lemma DistinctOverEmptySlot(s: seq<Option<Preimage>>, n: nat)
    requires n < |s| && s[n].None? && DistinctKeys(s, n)
    ensures DistinctKeys(s, n + 1)
  {
    forall i, j | 0 <= i < n + 1 && 0 <= j < n + 1 && i != j && s[i].Some? && s[j].Some?
      ensures KeyAt(s, i) != KeyAt(s, j)
    {
      assert i != n && j != n;
    }
  }

  lemma LinkOverEmptySlot(s: seq<Option<Preimage>>, n: nat, i: nat)
    requires n < |s| && s[n].None? && i < n && s[i].Some? && LinksToSuccessor(s, n, i)
    ensures LinksToSuccessor(s, n + 1, i)
  {
    var p := s[i].value;
    if p.nextKey == 0 {
      forall j | 0 <= j < n + 1 && s[j].Some?
        ensures KeyAt(s, j) <= p.leaf.key
      {
        assert j < n;
      }
    } else {
      forall j | 0 <= j < n + 1 && s[j].Some?
        ensures !(p.leaf.key < KeyAt(s, j) < p.nextKey)
      {
        assert j < n;
      }
    }
  }

  /** On a sorted tree the low-leaf slot is always present: 'Previous leaf not found!' cannot happen. */
  lemma SortedHasLowLeaf(t: Tree, hash: Hasher, leaf: Leaf)
    requires Sorted(t)
    ensures AppendLeaf(t, hash, leaf).1 != Fail(PreviousLeafNotFound)
  {
    if leaf.key == 0 {
      AppendZeroKey(t, hash, leaf);
    } else {
      AppendPreviousLeafNotFound(t, hash, leaf);
    }
  }

  /** A successful appendLeaf keeps the sorted linked list. */
  lemma {:induction false} AppendKeepsSorted(t: Tree, hash: Hasher, leaf: Leaf)
    requires Sorted(t)
    ensures AppendLeaf(t, hash, leaf).1.Pass? ==> Sorted(AppendLeaf(t, hash, leaf).0)
  {
    var (t', r) := AppendLeaf(t, hash, leaf);
    if r.Pass? {
      if leaf.key == 0 {
        EmptySlotKeepsSorted(t.slots, t.NumLeaves());
      } else {
        NewKeyKeepsSorted(t, hash, leaf);
      }
    }
  }

  /** AppendKeepsSorted for a non-zero key: a present key changes nothing, a new one is spliced in. */
  lemma NewKeyKeepsSorted(t: Tree, hash: Hasher, leaf: Leaf)
    requires Sorted(t) && leaf.key != 0
    requires AppendLeaf(t, hash, leaf).1.Pass?
    ensures Sorted(AppendLeaf(t, hash, leaf).0)
  {
    var n := t.NumLeaves();
    var low := FindIndexOfPreviousKey(t.slots, n, leaf.key);
    assert t.slots[0].Some? && KeyAt(t.slots, 0) <= leaf.key;
    if !low.alreadyPresent {
      var t' := AppendLeaf(t, hash, leaf).0;
      var p := t.slots[low.index].value;
      assert t'.slots == t.slots[n := Some(Preimage(leaf, p.nextKey, p.nextIndex))][low.index := Some(Preimage(p.leaf, leaf.key, n))]
        && t'.NumLeaves() == n + 1 by {
        AppendSplice(t, hash, leaf, low.index);
      }
      SpliceKeepsSorted(t.slots, n, low.index, leaf);
    }
  }

  /** appendLeaves that completes keeps the sorted linked list. */
  lemma {:induction false} AppendLeavesKeepsSorted(t: Tree, hash: Hasher, leaves: seq<Leaf>)
    requires Sorted(t)
    ensures AppendLeaves(t, hash, leaves).1.Pass? ==> Sorted(AppendLeaves(t, hash, leaves).0)
    decreases |leaves|
  {
    if leaves != [] {
      AppendKeepsSorted(t, hash, leaves[0]);
      var (t1, r1) := AppendLeaf(t, hash, leaves[0]);
      if r1.Pass? {
        AppendLeavesKeepsSorted(t1, hash, leaves[1..]);
      }
    }
  }

  // ----- following the links from the sentinel -----

  function MaxKey(s: seq<Option<Preimage>>, n: nat): (m: nat)
    requires n <= |s|
    ensures forall j :: 0 <= j < n && s[j].Some? ==> KeyAt(s, j) <= m
  {
    if n == 0 then 0
    else
      var m := MaxKey(s, n - 1);
      if s[n - 1].Some? && KeyAt(s, n - 1) > m then KeyAt(s, n - 1) else m
  }

  lemma SameKeySameSlot(s: seq<Option<Preimage>>, n: nat, i: nat, j: nat)
    requires n <= |s| && SortedLinkedList(s, n) && i < n && j < n && s[i].Some? && s[j].Some?
    requires s[i].value.nextKey == 0 && KeyAt(s, i) <= KeyAt(s, j)
    ensures i == j
  {
    assert LinksToSuccessor(s, n, i);
    assert KeyAt(s, j) <= KeyAt(s, i);
  }

  /** The slots visited by following nextIndex links from slot i until nextKey is 0. */
  ghost function Walk(s: seq<Option<Preimage>>, n: nat, i: nat): (w: seq<nat>)
    requires n <= |s| && SortedLinkedList(s, n) && i < n && s[i].Some?
    ensures |w| > 0 && w[0] == i
    ensures forall k :: 0 <= k < |w| ==> w[k] < n && s[w[k]].Some?
    decreases MaxKey(s, n) - KeyAt(s, i)
  {
    var p := s[i].value;
    assert LinksToSuccessor(s, n, i);
    if p.nextKey == 0 then [i] else [i] + Walk(s, n, p.nextIndex)
  }

  /**
   * The walk from slot i follows the links, visits strictly ascending keys and
   * stops at a preimage whose nextKey is 0.
   */
  lemma {:induction false} WalkAscends(s: seq<Option<Preimage>>, n: nat, i: nat)
    requires n <= |s| && SortedLinkedList(s, n) && i < n && s[i].Some?
    ensures var w := Walk(s, n, i);
      && (forall k :: 0 <= k < |w| - 1 ==> w[k + 1] == s[w[k]].value.nextIndex)
      && (forall k :: 0 <= k < |w| - 1 ==> KeyAt(s, w[k]) < KeyAt(s, w[k + 1]))
      && s[w[|w| - 1]].value.nextKey == 0
    decreases MaxKey(s, n) - KeyAt(s, i)
  {
    var p := s[i].value;
    assert LinksToSuccessor(s, n, i);
    if p.nextKey == 0 {
      assert Walk(s, n, i) == [i];
    } else {
      var w' := Walk(s, n, p.nextIndex);
      WalkAscends(s, n, p.nextIndex);
      assert Walk(s, n, i) == [i] + w';
      PrependToWalk(s, n, i, w');
    }
  }

  /** A slot linking to the start of an ascending walk, with a smaller key, extends it to an ascending walk. */
  lemma PrependToWalk(s: seq<Option<Preimage>>, n: nat, i: nat, w': seq<nat>)
    requires n <= |s| && i < n && s[i].Some? && 0 < |w'|
    requires forall k :: 0 <= k < |w'| ==> w'[k] < n && s[w'[k]].Some?
    requires w'[0] == s[i].value.nextIndex && KeyAt(s, i) < KeyAt(s, w'[0])
    requires forall k :: 0 <= k < |w'| - 1 ==> w'[k + 1] == s[w'[k]].value.nextIndex
    requires forall k :: 0 <= k < |w'| - 1 ==> KeyAt(s, w'[k]) < KeyAt(s, w'[k + 1])
    requires s[w'[|w'| - 1]].value.nextKey == 0
    ensures var w := [i] + w';
      && (forall k :: 0 <= k < |w| - 1 ==> w[k + 1] == s[w[k]].value.nextIndex)
      && (forall k :: 0 <= k < |w| - 1 ==> KeyAt(s, w[k]) < KeyAt(s, w[k + 1]))
      && s[w[|w| - 1]].value.nextKey == 0
  {
    var w := [i] + w';
    forall k | 0 <= k < |w| - 1
      ensures w[k + 1] == s[w[k]].value.nextIndex && KeyAt(s, w[k]) < KeyAt(s, w[k + 1])
    {
      if k > 0 {
        assert w[k] == w'[k - 1] && w[k + 1] == w'[k];
      }
    }
    assert w[|w| - 1] == w'[|w'| - 1];
  }

  /** The walk from slot i visits every stored slot whose key is at least slot i's. */
  lemma {:induction false} WalkCovers(s: seq<Option<Preimage>>, n: nat, i: nat)
    requires n <= |s| && SortedLinkedList(s, n) && i < n && s[i].Some?
    ensures forall j :: 0 <= j < n && s[j].Some? && KeyAt(s, i) <= KeyAt(s, j) ==> j in Walk(s, n, i)
    decreases MaxKey(s, n) - KeyAt(s, i)
  {
    var p := s[i].value;
    var w := Walk(s, n, i);
    assert LinksToSuccessor(s, n, i);
    if p.nextKey == 0 {
      forall j | 0 <= j < n && s[j].Some? && KeyAt(s, i) <= KeyAt(s, j)
        ensures j in w
      {
        SameKeySameSlot(s, n, i, j);
      }
    } else {
      WalkCovers(s, n, p.nextIndex);
      assert w == [i] + Walk(s, n, p.nextIndex);
      forall j | 0 <= j < n && s[j].Some? && KeyAt(s, i) <= KeyAt(s, j) && j != i
        ensures j in Walk(s, n, p.nextIndex)
      {
        assert KeyAt(s, i) != KeyAt(s, j);
      }
    }
  }

  /** From the key-0 sentinel the walk visits every stored leaf in ascending key order. */
  lemma WalkFromSentinel(t: Tree)
    requires Sorted(t)
    ensures var w := Walk(t.slots, t.NumLeaves(), 0);
      && (forall k :: 0 <= k < |w| - 1 ==> KeyAt(t.slots, w[k]) < KeyAt(t.slots, w[k + 1]))
      && t.slots[w[|w| - 1]].value.nextKey == 0
      && (forall j :: 0 <= j < t.NumLeaves() && t.slots[j].Some? ==> j in w)
  {
    WalkAscends(t.slots, t.NumLeaves(), 0);
    WalkCovers(t.slots, t.NumLeaves(), 0);
  }
}

/**
 * StandardIndexedTreeWithAppend: the tree as an object whose slot arena and
 * sizes are updated in place, each method proved to perform exactly the state
 * change of the functions in IndexedTree.
 */
module IndexedTreeWithAppend {
  import opened Wrappers
  import opened Digits
  import opened IndexedTree

  class StandardIndexedTreeWithAppend {
    const maxIndex: nat
    const hash: Hasher
    /** The latest preimage per slot (cachedLeafPreimages over the committed ones). */
    const slots: array<Option<Preimage>>
    /** The latest leaf hash per slot. */
    const hashes: array<nat>
    var size: nat
    var cachedSize: Option<nat>

    ghost function Model(): Tree
      reads this, slots, hashes
    {
      Tree(maxIndex, slots[..], hashes[..], size, cachedSize)
    }

    ghost predicate Valid()
      reads this, slots, hashes
    {
      WellFormed(Model())
    }

    /**
     * A tree of the given depth as the base class initialises it: the key-0
     * sentinel in slot 0 and a size of one; every slot hashes as the empty
     * preimage.
     */
    constructor (depth: nat, hash: Hasher)
      ensures Valid() && Sorted(Model())
      ensures maxIndex == Pow(2, depth) - 1 && this.hash == hash
      ensures Model().NumLeaves() == 1 && Model().slots[0] == Some(EmptyPreimage)
      ensures forall i :: 0 <= i < |Model().hashes| ==> Model().hashes[i] == hash(EmptyPreimage)
    {
      PowPositive(2, depth);
      var m: nat := Pow(2, depth) - 1;
      var empty := hash(EmptyPreimage);
      maxIndex := m;
      this.hash := hash;
      var a := new Option<Preimage>[m + 1](_ => None);
      a[0] := Some(EmptyPreimage);
      slots := a;
      hashes := new nat[m + 1](_ => empty);
      size := 1;
      cachedSize := None;
      new;
      assert slots[..][0] == Some(EmptyPreimage);
      assert LinksToSuccessor(slots[..], 1, 0);
    }

    function NumLeaves(): (n: nat)
      reads this
      ensures n == Model().NumLeaves()
    {
      cachedSize.GetOr(size)
    }

    /** updateLeaf of the base class: records the leaf hash of slot `index`. */
    method UpdateLeaf(p: Preimage, index: nat) returns (r: Outcome<TreeError>)
      requires hashes.Length == maxIndex + 1
      modifies this, hashes
      ensures (Model(), r) == IndexedTree.UpdateLeaf(old(Model()), hash, p, index)
    {
      if index > maxIndex {
        return Fail(IndexOutOfBounds);
      }
      hashes[index] := hash(p);
      if index >= NumLeaves() {
        cachedSize := Some(index + 1);
      }
      return Pass;
    }

    /** appendLeaf: append one leaf; the result says whether it threw and why. */
    method AppendLeaf(leaf: Leaf) returns (r: Outcome<TreeError>)
      requires Valid()
      modifies this, slots, hashes
      ensures Valid()
      ensures (Model(), r) == IndexedTree.AppendLeaf(old(Model()), hash, leaf)
      ensures old(Sorted(Model())) && r.Pass? ==> Sorted(Model())
    {
      if Sorted(Model()) {
        AppendKeepsSorted(Model(), hash, leaf);
      }
      if leaf.key == 0 {
        var newSize := NumLeaves() + 1;
        if newSize - 1 > maxIndex {
          return Fail(BeyondMaxIndex);
        }
        cachedSize := Some(newSize);
        return Pass;
      }
      var low := FindIndexOfPreviousKey(slots[..], NumLeaves(), leaf.key);
      var lowPreimage := slots[low.index];
      if lowPreimage.None? {
        return Fail(PreviousLeafNotFound);
      }
      var newPreimage := Preimage(leaf, lowPreimage.value.nextKey, lowPreimage.value.nextIndex);
      if low.alreadyPresent {
        return Pass;
      }
      var currentSize := NumLeaves();
      var newLowPreimage := Preimage(lowPreimage.value.leaf, leaf.key, currentSize);
      if currentSize <= maxIndex {
        slots[currentSize] := Some(newPreimage);
      }
      slots[low.index] := Some(newLowPreimage);
      r := UpdateLeaf(newLowPreimage, low.index);
      if r.Fail? {
        return;
      }
      r := UpdateLeaf(newPreimage, NumLeaves());
    }

    /** appendLeaves: appendLeaf on each leaf in order; the first error ends the loop. */
    method AppendLeaves(leaves: seq<Leaf>) returns (r: Outcome<TreeError>)
      requires Valid()
      modifies this, slots, hashes
      ensures Valid()
      ensures (Model(), r) == IndexedTree.AppendLeaves(old(Model()), hash, leaves)
      ensures old(Sorted(Model())) && r.Pass? ==> Sorted(Model())
    {
      if Sorted(Model()) {
        AppendLeavesKeepsSorted(Model(), hash, leaves);
      }
      var i := 0;
      while i < |leaves|
        invariant 0 <= i <= |leaves| && Valid()
        invariant IndexedTree.AppendLeaves(old(Model()), hash, leaves) == IndexedTree.AppendLeaves(Model(), hash, leaves[i..])
      {
        r := AppendLeaf(leaves[i]);
        assert leaves[i..][0] == leaves[i] && leaves[i..][1..] == leaves[i + 1..];
        if r.Fail? {
          return;
        }
        i := i + 1;
      }
      return Pass;
    }
  }
}
