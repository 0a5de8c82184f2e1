# Aztec core algorithms in Dafny

This project models, in Dafny, a set of core routines from the Aztec
repository and proves what they promise:

- the indexed Merkle tree's reference append (`appendLeaf`/`appendLeaves`),
  which splices each new key into a linked list sorted by key, laid over
  slots that are handed out in insertion order;
- the circuit library's `packed_bytes`, which packs a byte string big-endian
  into field limbs of `B` bytes each and unpacks, bit-decomposes, slices and
  extends it (native values only);
- the PXE's key-value note database: an append-only notes table, four
  secondary multi-map indexes, a nullified set, a capsule stack, auth
  witnesses, addresses, contracts and the block header singleton;
- two fixed-order serialisers: the rollup's native `value_note` and the
  block's `GlobalVariables`;
- the secp256k1 Montgomery parameters (`get_r_squared`, `get_r_inv` and the
  hard-coded limbs of the base field, the scalar field and the generator of
  the curve of section 2.4.1 of SEC 2);
- the ABI struct-type recognisers of the foundation package;
- the job filters of the CircleCI config generator.

Files:

| file | module | what it holds |
|---|---|---|
| wrappers.dfy | Wrappers | Option, Result and Outcome |
| digits.dfy | Digits | powers, big-endian digit strings and their values, left alignment |
| byte_codec.dfy | ByteCodec | fixed-width big-endian integers, a growable byte buffer and a read cursor |
| indexed_tree.dfy | IndexedTree, IndexedTreeWithAppend | the tree state as a value with appendLeaf as a function and its lemmas; the class over arrays whose methods are proved against it |
| packed_bytes.dfy | PackedBytes | the packing functions and lemmas; the class with every constructor, conversion and append |
| pxe_database.dfy | PxeDatabase | the reference queries and index rebuild; the database class |
| value_note.dfy | ValueNote | the note, its encoding, read and write |
| global_variables.dfy | GlobalVariables | the global variables, toBuffer and fromBuffer |
| secp256k1.dfy | Secp256k1 | the parameter functions and the constants checked against them |
| abi_utils.dfy | AbiUtils | the struct-type recognisers |
| circleci_config.dfy | CircleciConfig | the manifest-job search and the workflow job filter |

Modelling choices shared by every file: field elements, addresses and keys
are natural numbers; bytes are `Byte` values below 256; a buffer is a
`seq<Byte>`; errors the source throws are `Failure`/`Fail` results.

## Model

| member | source | states |
|---|---|---|
| IndexedTree.GreatestAtMost | yarn-project/merkle-tree/src/standard_indexed_tree/test/standard_indexed_tree_with_append.ts:44 | the slot with the greatest stored key not above the new key (first slot on a tie), or none exactly when every stored key is greater |
| IndexedTree.FindIndexOfPreviousKey | yarn-project/merkle-tree/src/standard_indexed_tree/test/standard_indexed_tree_with_append.ts:44 | the low-leaf search: `alreadyPresent` exactly when some stored key equals the new one; the index is a used slot holding the greatest key not above it, or 0 when there is none |
| IndexedTree.AppendLeaf | yarn-project/merkle-tree/src/standard_indexed_tree/test/standard_indexed_tree_with_append.ts:31-70 | appendLeaf on the tree state keeps the arena well formed, the depth and the committed size |
| IndexedTree.AppendLeaves | yarn-project/merkle-tree/src/standard_indexed_tree/test/standard_indexed_tree_with_append.ts:20-24 | appendLeaf on each leaf in order, stopping at the first error; the arena stays well formed |
| IndexedTree.AppendZeroKey | yarn-project/merkle-tree/src/standard_indexed_tree/test/standard_indexed_tree_with_append.ts:35-41 | key 0 raises the cached size by one and writes no slot; past maxIndex it throws "Can't append beyond max index" and changes nothing |
| IndexedTree.AppendAlreadyPresent | yarn-project/merkle-tree/src/standard_indexed_tree/test/standard_indexed_tree_with_append.ts:44-58 | a key already stored leaves the whole tree unchanged and succeeds |
| IndexedTree.AppendPreviousLeafNotFound | yarn-project/merkle-tree/src/standard_indexed_tree/test/standard_indexed_tree_with_append.ts:44-49 | 'Previous leaf not found!' is thrown exactly when no stored key is at most the new key and slot 0 is empty, and nothing changes then |
| IndexedTree.AppendSplice | yarn-project/merkle-tree/src/standard_indexed_tree/test/standard_indexed_tree_with_append.ts:50-69 | a new key goes to slot `size` with the low leaf's old link; the low leaf keeps its leaf and links to (new key, old size); no other slot changes and the size grows by one |
| IndexedTree.AppendWhenFull | yarn-project/merkle-tree/src/standard_indexed_tree/test/standard_indexed_tree_with_append.ts:60-69 | with every slot used, the low leaf's new link is written before the second slot write throws out of bounds |
| IndexedTree.SpliceKeepsSorted | yarn-project/merkle-tree/src/standard_indexed_tree/test/standard_indexed_tree_with_append.ts:50-69 | splicing a new key after the slot holding the greatest smaller key keeps keys distinct and every link pointing at the next greater key |
| IndexedTree.SortedHasLowLeaf | yarn-project/merkle-tree/src/standard_indexed_tree/test/standard_indexed_tree_with_append.ts:44-49 | on a sorted tree the low leaf is always found |
| IndexedTree.AppendKeepsSorted | yarn-project/merkle-tree/src/standard_indexed_tree/test/standard_indexed_tree_with_append.ts:31-70 | a successful appendLeaf keeps the sorted linked list |
| IndexedTree.AppendLeavesKeepsSorted | yarn-project/merkle-tree/src/standard_indexed_tree/test/standard_indexed_tree_with_append.ts:20-24 | a successful appendLeaves keeps the sorted linked list |
| IndexedTree.WalkAscends | yarn-project/merkle-tree/src/standard_indexed_tree/test/standard_indexed_tree_with_append.ts:50-69 | following nextIndex from a slot visits strictly ascending keys and ends at a leaf whose nextKey is 0 |
| IndexedTree.WalkCovers | yarn-project/merkle-tree/src/standard_indexed_tree/test/standard_indexed_tree_with_append.ts:50-69 | the walk from a slot visits every stored slot whose key is not below that slot's |
| IndexedTree.WalkFromSentinel | yarn-project/merkle-tree/src/standard_indexed_tree/test/standard_indexed_tree_with_append.ts:44-69 | on a sorted tree the walk from slot 0 is ascending, covers every stored leaf and ends at nextKey 0 |
| IndexedTreeWithAppend.StandardIndexedTreeWithAppend.constructor | yarn-project/merkle-tree/src/standard_indexed_tree/test/standard_indexed_tree_with_append.ts:10-13 | the construction inherited from the base `StandardIndexedTree`, whose constructor is not part of this model: a fresh tree of depth H with maxIndex 2^H - 1, the key-0 sentinel in slot 0, size one, sorted (initial values taken as given, see Left out) |
| IndexedTreeWithAppend.StandardIndexedTreeWithAppend.NumLeaves | yarn-project/merkle-tree/src/standard_indexed_tree/test/standard_indexed_tree_with_append.ts:60 | the uncommitted leaf count of the modelled state |
| IndexedTreeWithAppend.StandardIndexedTreeWithAppend.UpdateLeaf | yarn-project/merkle-tree/src/standard_indexed_tree/test/standard_indexed_tree_with_append.ts:68-69 | the array write agrees with the state function: out of bounds past maxIndex, else the slot hash and a size grown to index + 1 |
| IndexedTreeWithAppend.StandardIndexedTreeWithAppend.AppendLeaf | yarn-project/merkle-tree/src/standard_indexed_tree/test/standard_indexed_tree_with_append.ts:31-70 | the in-place append leaves exactly the state IndexedTree.AppendLeaf gives, and keeps a sorted tree sorted on success |
| IndexedTreeWithAppend.StandardIndexedTreeWithAppend.AppendLeaves | yarn-project/merkle-tree/src/standard_indexed_tree/test/standard_indexed_tree_with_append.ts:20-24 | the loop leaves exactly the state IndexedTree.AppendLeaves gives, and keeps a sorted tree sorted on success |
| PackedBytes.NumElementsIsCeiling | barretenberg/src/aztec/stdlib/primitives/packed_bytes/packed_bytes.cpp:27 | the limb count is the least number of B-byte limbs that holds the bytes |
| PackedBytes.BytesInLimbRange | barretenberg/src/aztec/stdlib/primitives/packed_bytes/packed_bytes.cpp:202 | every limb holds B bytes but the last, which holds between 1 and B |
| PackedBytes.PackBytes | barretenberg/src/aztec/stdlib/primitives/packed_bytes/packed_bytes.cpp:52-72 | the byte constructor's limbs, one per started B-byte run |
| PackedBytes.UnpackPackBytes | barretenberg/src/aztec/stdlib/primitives/packed_bytes/packed_bytes.cpp:52-242 | get_value after the byte constructor gives back the input bytes |
| PackedBytes.PackBytesCanonical | barretenberg/src/aztec/stdlib/primitives/packed_bytes/packed_bytes.cpp:52-72 | the byte constructor leaves the padding of the last limb zero |
| PackedBytes.PackFieldsIsPackBytes | barretenberg/src/aztec/stdlib/primitives/packed_bytes/packed_bytes.cpp:32-49 | when bytes_per_input divides B, the limbs have room for every input and the field-vector constructor packs the same limbs as the byte constructor on the inputs' big-endian bytes |
| PackedBytes.FieldsLimbAt | barretenberg/src/aztec/stdlib/primitives/packed_bytes/packed_bytes.cpp:38-46 | for any bytes_per_input up to B whose limbs have room for every input (divisible or not), limb i is the left-aligned big-endian encoding of the inputs it takes, input j at bytes j*bpi to (j+1)*bpi - 1 of the limb |
| PackedBytes.FieldsLimbBytes | barretenberg/src/aztec/stdlib/primitives/packed_bytes/packed_bytes.cpp:38-46 | under the same condition the B bytes of limb i are its inputs' big-endian bytes followed by zero bytes for the gap no input takes |
| PackedBytes.InputsPerLimbRange | barretenberg/src/aztec/stdlib/primitives/packed_bytes/packed_bytes.cpp:36 | inputs_per_limb = B / bytes_per_input is at least one and that many inputs fit in B bytes |
| PackedBytes.FieldsLayoutFit | barretenberg/src/aztec/stdlib/primitives/packed_bytes/packed_bytes.cpp:36-43 | when the limbs have room for every input, each limb takes between 1 and inputs_per_limb inputs, inside the input vector, fitting in B bytes |
| PackedBytes.DivisibleFits | barretenberg/src/aztec/stdlib/primitives/packed_bytes/packed_bytes.cpp:36-38 | when bytes_per_input divides B the limbs counted from num_bytes always have room for every input |
| PackedBytes.FieldsShiftAsWritten | barretenberg/src/aztec/stdlib/primitives/packed_bytes/packed_bytes.cpp:44 | limb_shift as written, computed in size_t and uint64_t modulo 2^64, is below 2^64 |
| PackedBytes.FieldsShiftAsWrittenFits | barretenberg/src/aztec/stdlib/primitives/packed_bytes/packed_bytes.cpp:44 | while input j fits in the limb, the shift as written is the byte offset (B - (j + 1) * bpi) * 8 |
| PackedBytes.LastLimbOverflows | barretenberg/src/aztec/stdlib/primitives/packed_bytes/packed_bytes.cpp:38-44 | when the limbs lack room for every input, the last limb is handed more than inputs_per_limb inputs and the first extra one does not fit in B bytes |
| PackedBytes.FieldsShiftAsWrittenWraps | barretenberg/src/aztec/stdlib/primitives/packed_bytes/packed_bytes.cpp:36-45 | B = 32, three-byte inputs, 21 inputs: two limbs, the last handed 11 inputs, and the eleventh's shift wraps to 2^64 - 8 |
| PackedBytes.GroupedLayout | barretenberg/src/aztec/stdlib/primitives/packed_bytes/packed_bytes.cpp:36-43 | with the limb count corrected to ceil(n / inputs_per_limb), every limb takes between 1 and inputs_per_limb inputs that fit, all but the last exactly inputs_per_limb, the last ending at the last input |
| PackedBytes.GroupedLimbAt | barretenberg/src/aztec/stdlib/primitives/packed_bytes/packed_bytes.cpp:36-46 | for every bytes_per_input up to B the corrected packing's limb i is the left-aligned big-endian encoding of the inputs it takes |
| PackedBytes.NumElementsAtMost | barretenberg/src/aztec/stdlib/primitives/packed_bytes/packed_bytes.cpp:27 | num_elements is the least limb count: any k limbs that hold the bytes are at least num_elements |
| PackedBytes.FieldsFitIff | barretenberg/src/aztec/stdlib/primitives/packed_bytes/packed_bytes.cpp:36-38 | the limbs counted from num_bytes have room for every input exactly when they are as many as the corrected count by inputs |
| PackedBytes.GroupedIsPackFields | barretenberg/src/aztec/stdlib/primitives/packed_bytes/packed_bytes.cpp:32-49 | wherever the limbs have room for every input, the source's packing equals the corrected packing |
| PackedBytes.AccumulatorIsCanonical | barretenberg/src/aztec/stdlib/primitives/packed_bytes/packed_bytes.cpp:139-148 | the bits of a limb, weighted back, equal the limb exactly when its padding bits are zero |
| PackedBytes.PackBitsToBits | barretenberg/src/aztec/stdlib/primitives/packed_bytes/packed_bytes.cpp:75-151 | the byte_array constructor rebuilds the limbs from their bits exactly when every limb is canonical |
| PackedBytes.ToBitsPackBits | barretenberg/src/aztec/stdlib/primitives/packed_bytes/packed_bytes.cpp:75-151 | converting the byte_array constructor's limbs back to bits gives the input bits |
| PackedBytes.PackBitsCanonical | barretenberg/src/aztec/stdlib/primitives/packed_bytes/packed_bytes.cpp:75-94 | the byte_array constructor's limbs are canonical |
| PackedBytes.AppendCount | barretenberg/src/aztec/stdlib/primitives/packed_bytes/packed_bytes.cpp:155-193 | append leaves one limb per started B-byte run of the longer string: it adds at most one limb |
| PackedBytes.AppendPacks | barretenberg/src/aztec/stdlib/primitives/packed_bytes/packed_bytes.cpp:153-194 | appending the n-byte encoding of v to packed bytes gives the packing of the longer byte string |
| PackedBytes.AppendThenGetValue | barretenberg/src/aztec/stdlib/primitives/packed_bytes/packed_bytes.cpp:153-242 | get_value after append reads the old bytes followed by the n bytes of v |
| PackedBytes.ReconstructedIsLowBytes | barretenberg/src/aztec/stdlib/primitives/packed_bytes/packed_bytes.cpp:169-186 | the corrected reconstruction of the two parts is v mod 2^(8n) |
| PackedBytes.AppendCheck | barretenberg/src/aztec/stdlib/primitives/packed_bytes/packed_bytes.cpp:186-191 | the corrected reconstruction equals v exactly when v fits in n bytes |
| PackedBytes.ReconstructedAsWrittenFails | barretenberg/src/aztec/stdlib/primitives/packed_bytes/packed_bytes.cpp:186 | for v = 0x02030405, n = 4, space 3, the reconstruction as written gives 0x05020304 |
| PackedBytes.AppendLimbsAsWrittenFails | barretenberg/src/aztec/stdlib/primitives/packed_bytes/packed_bytes.cpp:184 | appending 0x02030405 to one byte in B = 4 gives a new limb 120 as written, 0x05000000 when corrected |
| PackedBytes.LeadingByteAsWritten | barretenberg/src/aztec/stdlib/primitives/packed_bytes/packed_bytes.cpp:184 | the new limb as written reads back a leading byte 0 |
| PackedBytes.LeadingByteCorrected | barretenberg/src/aztec/stdlib/primitives/packed_bytes/packed_bytes.cpp:184 | the corrected new limb reads back the appended byte 5 |
| PackedBytes.LimbSlices | barretenberg/src/aztec/stdlib/primitives/packed_bytes/packed_bytes.cpp:202-212 | a limb holding w bytes splits into the ceiling of w / bytes_per_slice slices |
| PackedBytes.SlicesOfPackedLimb | barretenberg/src/aztec/stdlib/primitives/packed_bytes/packed_bytes.cpp:197-225 | the slices of a limb from the byte constructor are the big-endian values of consecutive runs of its bytes |
| PackedBytes.SliceAccumulatorIsCanonical | barretenberg/src/aztec/stdlib/primitives/packed_bytes/packed_bytes.cpp:213-222 | the slices weighted back equal the limb exactly when its padding bytes are zero |
| PackedBytes.LimbSlicesAsWritten | barretenberg/src/aztec/stdlib/primitives/packed_bytes/packed_bytes.cpp:205-212 | the slicing with the offsets as written yields the same number of slices |
| PackedBytes.LimbSlicesAgree | barretenberg/src/aztec/stdlib/primitives/packed_bytes/packed_bytes.cpp:205-212 | when bytes_per_slice divides the limb's byte count, the offsets as written give the corrected slices |
| PackedBytes.LimbSlicesAsWrittenFails | barretenberg/src/aztec/stdlib/primitives/packed_bytes/packed_bytes.cpp:209-210 | the limb 0x01020300, holding the three bytes 01 02 03 in B = 4, cut in 2-byte slices yields [0x0102, 0x02] as written and [0x0102, 0x03] corrected |
| PackedBytes.StringBytes | barretenberg/src/aztec/stdlib/primitives/packed_bytes/packed_bytes.cpp:97-99 | the string's characters as bytes, one per character |
| PackedBytes.PackedBytes.Sized | barretenberg/src/aztec/stdlib/primitives/packed_bytes/packed_bytes.cpp:23-29 | num_bytes as given and one zero limb per started B-byte run |
| PackedBytes.PackedBytes.LimbsFromFields | barretenberg/src/aztec/stdlib/primitives/packed_bytes/packed_bytes.cpp:38-48 | for any bytes_per_input up to B whose limbs have room for every input, the outer loop of the field-vector constructor computes the field packing |
| PackedBytes.PackedBytes.LimbFromFields | barretenberg/src/aztec/stdlib/primitives/packed_bytes/packed_bytes.cpp:43-46 | the inner loop computes the weighted sum of one limb's inputs |
| PackedBytes.PackedBytes.FromFields | barretenberg/src/aztec/stdlib/primitives/packed_bytes/packed_bytes.cpp:32-49 | for any bytes_per_input up to B whose limbs have room for every input, num_bytes = bytes_per_input * the input count and the limbs are the field packing (the remaining inputs are a Finding, see Left out) |
| PackedBytes.LoopLimbsArePartialPack | barretenberg/src/aztec/stdlib/primitives/packed_bytes/packed_bytes.cpp:61-67 | after n steps of the accumulation loop, each limb holds exactly the first n bytes that belong to it, left-aligned |
| PackedBytes.PackedBytes.LimbsFromBytes | barretenberg/src/aztec/stdlib/primitives/packed_bytes/packed_bytes.cpp:56-71 | the accumulation loop computes the byte packing |
| PackedBytes.PackedBytes.FromBytes | barretenberg/src/aztec/stdlib/primitives/packed_bytes/packed_bytes.cpp:52-72 | num_bytes is the input length and the limbs are the byte packing |
| PackedBytes.PackedBytes.FromString | barretenberg/src/aztec/stdlib/primitives/packed_bytes/packed_bytes.cpp:97-99 | the byte constructor on the string's characters |
| PackedBytes.PackedBytes.LimbsFromBits | barretenberg/src/aztec/stdlib/primitives/packed_bytes/packed_bytes.cpp:83-93 | the byte_array constructor's loops compute the bit packing |
| PackedBytes.PackedBytes.LimbFromBits | barretenberg/src/aztec/stdlib/primitives/packed_bytes/packed_bytes.cpp:88-91 | the inner loop puts bit j of the run at bit width - 1 - j of the limb |
| PackedBytes.PackedBytes.FromByteArray | barretenberg/src/aztec/stdlib/primitives/packed_bytes/packed_bytes.cpp:75-94 | num_bytes is the bit count / 8 and the limbs are the bit packing |
| PackedBytes.PackedBytes.Copy | barretenberg/src/aztec/stdlib/primitives/packed_bytes/packed_bytes.cpp:102-113 | the copy and move constructors keep B, the size and the limbs, and a copy of a well-formed object is well-formed |
| PackedBytes.PackedBytes.Assign | barretenberg/src/aztec/stdlib/primitives/packed_bytes/packed_bytes.cpp:115-129 | copy and move assignment take the other's size and limbs, and assigning from a well-formed object leaves this one well-formed |
| PackedBytes.PackedBytes.ToByteArray | barretenberg/src/aztec/stdlib/primitives/packed_bytes/packed_bytes.cpp:131-151 | the bits of each limb MSB first, and the consistency check holds exactly when every limb is canonical |
| PackedBytes.PackedBytes.LimbToBits | barretenberg/src/aztec/stdlib/primitives/packed_bytes/packed_bytes.cpp:138-147 | one limb's top bits and their weighted sum |
| PackedBytes.PackedBytes.Append | barretenberg/src/aztec/stdlib/primitives/packed_bytes/packed_bytes.cpp:153-194 | num_bytes grows by bytes_to_append, the limbs are the corrected append, and the range check holds exactly when the value is constant or fits in n bytes |
| PackedBytes.PackedBytes.AppendToLimbs | barretenberg/src/aztec/stdlib/primitives/packed_bytes/packed_bytes.cpp:155-185 | append's steps compute the corrected append limbs and the corrected reconstruction of the value from its two parts |
| PackedBytes.PackedBytes.ToUnverifiedByteSlices | barretenberg/src/aztec/stdlib/primitives/packed_bytes/packed_bytes.cpp:197-225 | the slices of every limb in limb order, with the corrected slice offsets (see Findings), and the consistency check holds exactly when every limb is canonical |
| PackedBytes.PackedBytes.SlicesOfLimb | barretenberg/src/aztec/stdlib/primitives/packed_bytes/packed_bytes.cpp:202-222 | one limb's slices and their weighted sum |
| PackedBytes.PackedBytes.GetValue | barretenberg/src/aztec/stdlib/primitives/packed_bytes/packed_bytes.cpp:227-242 | byte i*B+j of the result is byte j (from the top) of limb i, num_bytes bytes in all |
| PxeDatabase.HeaderRoundTrip | yarn-project/pxe/src/database/kv_pxe_database.ts:186-218 | the stored header has every tree's root, and reading it back gives each root and the globals hash unchanged with the vk tree root zero |
| PxeDatabase.SerializeHasAllRoots | yarn-project/pxe/src/database/kv_pxe_database.ts:186-198 | setBlockHeader stores a root for every tree id |
| PxeDatabase.MultiMapSetValues | yarn-project/pxe/src/database/kv_pxe_database.ts:80-83 | after set(k, id), k lists its old ids and then id (once), and every other key is unchanged |
| PxeDatabase.MultiMapDeleteValues | yarn-project/pxe/src/database/kv_pxe_database.ts:159-162 | after deleteValue(k, id), k lists its old ids without id, and every other key is unchanged |
| PxeDatabase.IdsWithMembers | yarn-project/pxe/src/database/kv_pxe_database.ts:80-83 | an index lists an id under k exactly when the note is live and filed under k |
| PxeDatabase.IdsWithAppend | yarn-project/pxe/src/database/kv_pxe_database.ts:76-83 | after addNotes each index lists under k its old ids followed by the new ids filed under k, in input order |
| PxeDatabase.MarkedIdsMembers | yarn-project/pxe/src/database/kv_pxe_database.ts:153-163 | the nullification loop marks an id exactly when it is a candidate and its note meets the criteria |
| PxeDatabase.ScanIdsMembers | yarn-project/pxe/src/database/kv_pxe_database.ts:88-96 | the reference scan picks an id exactly when it is live and its note meets the criteria |
| PxeDatabase.IndexedQueryIsScan | yarn-project/pxe/src/database/kv_pxe_database.ts:103-141 | looking candidates up in an index whose key the query pins, then filtering, gives the same notes as scanning the table |
| PxeDatabase.BuiltIndexValuesAt | yarn-project/pxe/src/database/kv_pxe_database.ts:80-83 | the rebuilt index lists under a given key exactly the live notes filed there, in id order |
| PxeDatabase.BuiltIndexValues | yarn-project/pxe/src/database/kv_pxe_database.ts:80-83 | the rebuilt index lists under every key exactly the live notes filed there, in id order |
| PxeDatabase.NullifyBuiltAny | yarn-project/pxe/src/database/kv_pxe_database.ts:159-162 | deleting a note's id under its key gives the index in which that note is nullified |
| PxeDatabase.SetThenDelete | yarn-project/pxe/src/database/kv_pxe_database.ts:80-83 | setting a new pair and deleting it again restores the multi-map |
| PxeDatabase.NullifiedIdsAreScanIds | yarn-project/pxe/src/database/kv_pxe_database.ts:147-167 | the ids the nullification loop marks are those of the notes the reference scan returns |
| PxeDatabase.KVPxeDatabase.constructor | yarn-project/pxe/src/database/kv_pxe_database.ts:34-48 | every table, index and singleton starts empty, and the store is consistent |
| PxeDatabase.KVPxeDatabase.AddAuthWitness | yarn-project/pxe/src/database/kv_pxe_database.ts:50-55 | the witness is stored under the message hash, replacing any earlier one |
| PxeDatabase.KVPxeDatabase.GetAuthWitness | yarn-project/pxe/src/database/kv_pxe_database.ts:57-60 | the stored witness, or the empty list when none is stored |
| PxeDatabase.KVPxeDatabase.AddCapsule | yarn-project/pxe/src/database/kv_pxe_database.ts:62-64 | the capsule goes on top of the stack |
| PxeDatabase.KVPxeDatabase.PopCapsule | yarn-project/pxe/src/database/kv_pxe_database.ts:66-69 | the most recently added capsule is returned and removed; on an empty stack none and no change |
| PxeDatabase.KVPxeDatabase.AddNote | yarn-project/pxe/src/database/kv_pxe_database.ts:71-73 | addNotes of one note |
| PxeDatabase.KVPxeDatabase.AddNotes | yarn-project/pxe/src/database/kv_pxe_database.ts:75-86 | the notes are appended in input order, getting consecutive ids from the old length, and every index is brought up to date |
| PxeDatabase.KVPxeDatabase.FileNotes | yarn-project/pxe/src/database/kv_pxe_database.ts:77-85 | the loop files each new id under the note's four keys, giving the rebuilt indexes of all notes |
| PxeDatabase.KVPxeDatabase.GetAllNonNullifiedNotes | yarn-project/pxe/src/database/kv_pxe_database.ts:88-96 | every note not nullified, in insertion order |
| PxeDatabase.KVPxeDatabase.GetNotes | yarn-project/pxe/src/database/kv_pxe_database.ts:98-145 | exactly the live notes meeting every given criterion, in insertion order; an unregistered owner is no criterion |
| PxeDatabase.KVPxeDatabase.FilterCandidates | yarn-project/pxe/src/database/kv_pxe_database.ts:117-142 | the candidate loop keeps the existing notes that meet every criterion, in candidate order |
| PxeDatabase.KVPxeDatabase.RemoveNullifiedNotes | yarn-project/pxe/src/database/kv_pxe_database.ts:147-168 | returns exactly the account's live notes whose siloed nullifier is listed, marks them nullified and drops their ids from every index |
| PxeDatabase.KVPxeDatabase.NullifyNotes | yarn-project/pxe/src/database/kv_pxe_database.ts:153-164 | the loop returns and marks the matching candidates, leaving the indexes rebuilt without them |
| PxeDatabase.KVPxeDatabase.GetTreeRoots | yarn-project/pxe/src/database/kv_pxe_database.ts:170-184 | fails with "Tree roots not set" until a header is stored; then each tree's stored root |
| PxeDatabase.KVPxeDatabase.SetBlockHeader | yarn-project/pxe/src/database/kv_pxe_database.ts:186-198 | the header's roots and globals hash are stored |
| PxeDatabase.KVPxeDatabase.GetBlockHeader | yarn-project/pxe/src/database/kv_pxe_database.ts:200-218 | fails with "Block header not set" until a header is stored; then the stored header with the vk tree root zero |
| PxeDatabase.KVPxeDatabase.AddCompleteAddress | yarn-project/pxe/src/database/kv_pxe_database.ts:220-222 | stored, and true, exactly when the address is new |
| PxeDatabase.KVPxeDatabase.GetCompleteAddress | yarn-project/pxe/src/database/kv_pxe_database.ts:224-227 | the stored complete address, or none |
| PxeDatabase.KVPxeDatabase.GetCompleteAddresses | yarn-project/pxe/src/database/kv_pxe_database.ts:229-231 | every stored complete address, once each |
| PxeDatabase.KVPxeDatabase.AddContract | yarn-project/pxe/src/database/kv_pxe_database.ts:238-240 | the contract is stored under its address |
| PxeDatabase.KVPxeDatabase.GetContract | yarn-project/pxe/src/database/kv_pxe_database.ts:242-245 | the stored contract, or none |
| PxeDatabase.KVPxeDatabase.GetContracts | yarn-project/pxe/src/database/kv_pxe_database.ts:247-249 | every stored contract, once each |
| ValueNote.Equal | circuits/cpp/barretenberg/src/aztec/rollup/proofs/notes/native/value/value_note.hpp:24 | two notes are equal exactly when all six members agree |
| ValueNote.Encode | circuits/cpp/barretenberg/src/aztec/rollup/proofs/notes/native/value/value_note.hpp:52-61 | the encoding has the same length for every note |
| ValueNote.DecodeEncode | circuits/cpp/barretenberg/src/aztec/rollup/proofs/notes/native/value/value_note.hpp:41-61 | reading what was written gives back the note |
| ValueNote.EncodeDecode | circuits/cpp/barretenberg/src/aztec/rollup/proofs/notes/native/value/value_note.hpp:41-61 | writing what was read gives back the bytes read |
| ValueNote.Write | circuits/cpp/barretenberg/src/aztec/rollup/proofs/notes/native/value/value_note.hpp:52-61 | the six members are appended in order and the buffer's old contents stay in front |
| ValueNote.Read | circuits/cpp/barretenberg/src/aztec/rollup/proofs/notes/native/value/value_note.hpp:41-50 | the six members are read in write's order and the cursor advances by exactly the note size |
| ValueNote.WriteThenRead | circuits/cpp/barretenberg/src/aztec/rollup/proofs/notes/native/value/value_note.hpp:41-61 | read after write gives an equal note and consumes every written byte |
| GlobalVariables.From | yarn-project/circuits.js/src/structs/global_variables.ts:34-36 | from(fields) keeps every field |
| GlobalVariables.ToBuffer | yarn-project/circuits.js/src/structs/global_variables.ts:51-53 | the buffer is six field elements long |
| GlobalVariables.ToBufferIsFieldList | yarn-project/circuits.js/src/structs/global_variables.ts:47-53 | toBuffer writes chainId, version, blockNumber, timestamp and the two hash fields, in that order |
| GlobalVariables.ReadFrToBuffer | yarn-project/circuits.js/src/structs/global_variables.ts:44 | reading a field element from its encoding gives it back and leaves the rest |
| GlobalVariables.FromBufferToBuffer | yarn-project/circuits.js/src/structs/global_variables.ts:42-53 | fromBuffer after toBuffer gives back the variables and leaves the rest of the buffer |
| GlobalVariables.FromBufferConsumes | yarn-project/circuits.js/src/structs/global_variables.ts:42-45 | a successful fromBuffer consumes exactly the encoding of what it returns |
| GlobalVariables.FromBufferSucceeds | yarn-project/circuits.js/src/structs/global_variables.ts:42-53 | fromBuffer returns g and rest exactly when the buffer is toBuffer(g) followed by rest |
| GlobalVariables.ShortBufferFails | yarn-project/circuits.js/src/structs/global_variables.ts:42-45 | a buffer shorter than six field elements fails to read |
| GlobalVariables.EmptyIsZeroBytes | yarn-project/circuits.js/src/structs/global_variables.ts:38-40 | empty() serialises to zero bytes only, and reads back from them |
| Secp256k1.FromLimbs | barretenberg/src/aztec/ecc/curves/secp256k1/secp256k1.hpp:34-37 | four 64-bit limbs, least significant first, as one 256-bit number |
| Secp256k1.GetRSquared | barretenberg/src/aztec/ecc/curves/secp256k1/secp256k1.hpp:13-22 | get_r_squared(p) is (2^256)^2 mod p |
| Secp256k1.InvMod | barretenberg/src/aztec/ecc/curves/secp256k1/secp256k1.hpp:27 | the inverse modulo m is below m |
| Secp256k1.EgcdDivides | barretenberg/src/aztec/ecc/curves/secp256k1/secp256k1.hpp:27 | the gcd computed divides both arguments |
| Secp256k1.EgcdBezout | barretenberg/src/aztec/ecc/curves/secp256k1/secp256k1.hpp:27 | the Bezout coefficients combine the arguments to the gcd |
| Secp256k1.GetRInvIsMontgomeryInverse | barretenberg/src/aztec/ecc/curves/secp256k1/secp256k1.hpp:24-31 | for an odd modulus p, get_r_inv(p) * p = -1 mod 2^64 |
| Secp256k1.MontgomeryInverseUnique | barretenberg/src/aztec/ecc/curves/secp256k1/secp256k1.hpp:24-31 | there is one 64-bit r_inv with r_inv * p = -1 mod 2^64 |
| Secp256k1.FqModulusIsP | barretenberg/src/aztec/ecc/curves/secp256k1/secp256k1.hpp:34-37 | the Fq modulus limbs are 2^256 - 2^32 - 977 |
| Secp256k1.FqRSquaredIsGetRSquared | barretenberg/src/aztec/ecc/curves/secp256k1/secp256k1.hpp:39-42 | the Fq r_squared limbs are 2^64 + 8392367050913 and equal get_r_squared of the modulus |
| Secp256k1.FqRInvIsGetRInv | barretenberg/src/aztec/ecc/curves/secp256k1/secp256k1.hpp:58-59 | the Fq r_inv is get_r_inv of the modulus, so r_inv * p = -1 mod 2^64 |
| Secp256k1.FrModulusIsGroupOrder | barretenberg/src/aztec/ecc/curves/secp256k1/secp256k1.hpp:73-76 | the Fr modulus limbs are the group order n of SEC 2 |
| Secp256k1.FrRSquaredIsGetRSquared | barretenberg/src/aztec/ecc/curves/secp256k1/secp256k1.hpp:78-81 | the Fr r_squared limbs equal get_r_squared of n |
| Secp256k1.FrRInvIsGetRInv | barretenberg/src/aztec/ecc/curves/secp256k1/secp256k1.hpp:83-84 | the Fr r_inv is get_r_inv of n, so r_inv * n = -1 mod 2^64 |
| Secp256k1.GeneratorOnCurve | barretenberg/src/aztec/ecc/curves/secp256k1/secp256k1.hpp:119-126 | the generator satisfies y^2 = x^3 + 7 mod p |
| AbiUtils.EndsWith | yarn-project/foundation/src/abi/utils.ts:18 | endsWith holds exactly when the string is some prefix followed by the suffix |
| AbiUtils.IsEthAddressStruct | yarn-project/foundation/src/abi/utils.ts:17-19 | true exactly for a struct whose path ends with types::address::EthAddress |
| AbiUtils.IsAztecAddressStruct | yarn-project/foundation/src/abi/utils.ts:26-28 | true exactly for a struct whose path ends with types::address::AztecAddress |
| AbiUtils.IsAddressStruct | yarn-project/foundation/src/abi/utils.ts:8-10 | true exactly for a struct whose path ends with the EthAddress path or the AztecAddress path |
| AbiUtils.IsFunctionSelectorStruct | yarn-project/foundation/src/abi/utils.ts:35-37 | true exactly for a struct whose path ends with types::abis::function_selector::FunctionSelector |
| AbiUtils.OnlyStructs | yarn-project/foundation/src/abi/utils.ts:17-37 | every recogniser is false when the kind is not struct |
| AbiUtils.PrefixedPathRecognised | yarn-project/foundation/src/abi/utils.ts:17-37 | any module prefix before a recognised path is still recognised |
| AbiUtils.EthAndAztecExclusive | yarn-project/foundation/src/abi/utils.ts:17-28 | no type is both an Ethereum and an Aztec address |
| AbiUtils.SelectorIsNotAddress | yarn-project/foundation/src/abi/utils.ts:8-37 | a function selector is never taken for an address |
| CircleciConfig.ContainsIff | build-system/scripts/generate_circleci_config.py:21 | Python's substring test holds exactly when the name occurs at some position of the command |
| CircleciConfig.HasAssociatedManifestJob | build-system/scripts/generate_circleci_config.py:15-23 | true exactly when some step's run command contains some manifest name; missing steps, run or command count as empty |
| CircleciConfig.NoCommandsNoAssociation | build-system/scripts/generate_circleci_config.py:16-21 | a job without commands is associated with no non-empty name |
| CircleciConfig.AlreadyBuiltAppend | build-system/scripts/generate_circleci_config.py:27-29 | the generator's output over concatenated jobs is the concatenation of its outputs |
| CircleciConfig.AlreadyBuiltMembers | build-system/scripts/generate_circleci_config.py:25-29 | a name is yielded exactly when some job of that name is associated with a listed manifest name |
| CircleciConfig.GetAlreadyBuiltCircleciJobNames | build-system/scripts/generate_circleci_config.py:25-29 | the names, in dict order, of the jobs associated with the two hard-coded barretenberg manifests |
| CircleciConfig.Without | build-system/scripts/generate_circleci_config.py:69 | the comprehension keeps exactly the names not removed, never more than there were |
| CircleciConfig.WithoutAppend | build-system/scripts/generate_circleci_config.py:69 | filtering distributes over concatenation, so the kept names stay in order |
| CircleciConfig.WithoutIdempotent | build-system/scripts/generate_circleci_config.py:69 | filtering twice is filtering once |
| CircleciConfig.WithoutNothingRemoved | build-system/scripts/generate_circleci_config.py:69 | with nothing to remove the list is unchanged |
| CircleciConfig.KeptJobsMembers | build-system/scripts/generate_circleci_config.py:64-70 | a job is kept exactly when it is in the workflow and its key is not removed |
| CircleciConfig.KeptJobsAppend | build-system/scripts/generate_circleci_config.py:64-70 | the kept jobs of concatenated lists are the concatenated kept jobs, so order is kept |
| CircleciConfig.WorkflowJob.constructor | build-system/scripts/generate_circleci_config.py:65 | a workflow job with its key and its optional requires list |
| CircleciConfig.RemoveJobsFromWorkflow | build-system/scripts/generate_circleci_config.py:50-71 | the kept jobs in order; each kept job's requires becomes its old requires (or []) without the removed names, in place; removed jobs are untouched |
| CircleciConfig.RemoveJobsFromWorkflowAsWritten | build-system/scripts/generate_circleci_config.py:50-71 | the same, with the requires filtered by the global jobs_to_remove as line 69 reads it |
| CircleciConfig.FilterWorkflow | build-system/scripts/generate_circleci_config.py:62-71 | the loop keeps the jobs in order and rewrites each kept job's requires through the given filter |
| CircleciConfig.RewriteDependencies | build-system/scripts/generate_circleci_config.py:69 | one job's requires is overwritten by its filtered list |
| CircleciConfig.NoRequirementOnRemovedJob | build-system/scripts/generate_circleci_config.py:69 | after the corrected rewrite no kept job requires a removed job |
| CircleciConfig.AsWrittenKeepsRemovedDependency | build-system/scripts/generate_circleci_config.py:69 | removing "build" with an empty global list leaves "test" requiring the removed "build" |
| CircleciConfig.CorrectedDropsRemovedDependency | build-system/scripts/generate_circleci_config.py:69 | with the parameter, "test" is left requiring nothing |

## Left out

- Merkle hashing, root recomputation, commitment and persistence of the base `StandardIndexedTree` are not part of this model; leaf hashing is an uninterpreted function parameter and the store is an array of latest hashes.
- The base class's `findIndexOfPreviousKey` is not part of this model; it is specified as the search over the latest state (uncommitted leaves included).
- IndexedTreeWithAppend.StandardIndexedTreeWithAppend.AppendLeaf: the source writes `cachedLeafPreimages[size]` before `updateLeaf` throws when the tree is full; the model's arena has maxIndex + 1 slots, so that write past the end is not represented.
- IndexedTreeWithAppend.StandardIndexedTreeWithAppend.constructor: the base `StandardIndexedTree` constructor is not part of this model; its initial state (maxIndex = 2^depth - 1, the key-0 sentinel preimage in slot 0, size one, nothing cached) is taken as given.
- The base class's `batchInsert` and the tree's other methods are outside the modelled core.
- packed_bytes: the field modulus is not modelled; limbs are natural numbers, which agrees with the source as long as B <= 31 fits below the modulus (B = 32 can wrap in the source).
- packed_bytes: `BYTES_PER_ELEMENT` comes from a header that is not part of this model; it is the class's parameter B with 0 < B <= 32.
- PackedBytes.PackedBytes.Append: requires num_bytes > 0, because the source reads the last limb and, for an empty object, indexes past the limbs; and requires bytes_to_append <= the free space + B, because otherwise the bytes do not fit in one new limb and `next_padding` underflows as an unsigned size.
- PackedBytes.PackedBytes.FromFields: requires 0 < bytes_per_input <= B and that the num_elements limbs counted from num_bytes have room for every input at inputs_per_limb each (FieldsFit). On the other inputs, which exist only when bytes_per_input does not divide B (for example B = 32, bytes_per_input = 3, 21 inputs), the source hands the last limb more inputs than fit and its limb_shift wraps (see Findings); the corrected limb count there gives more limbs than num_bytes allows, so the object's one-limb-per-B-bytes shape cannot hold it and those inputs are not modelled. A bytes_per_input of 0 divides by zero in the source, and one above B packs no input whole.
- PackedBytes.StringBytes: a Dafny character is a Unicode scalar value where a std::string element is a byte; a character above 255 has no counterpart in the source and is taken modulo 256, as the uint8_t cast does to a char.
- packed_bytes: the constraint machinery (`witness_t`, `assert_equal`, `context`, range constraints) is modelled by the truth of each constraint it adds; circuit failure is not modelled.
- packed_bytes: a byte_array is modelled as its bit string; the byte_array class itself is not part of this model.
- The LMDB key-value backend, transactions, async calls and `Promise.all` of the PXE database are not modelled; the store is in-memory maps and sequences updated atomically.
- The NoteDao, CompleteAddress and ContractDao binary formats are not part of this model; notes are records of the fields the database reads, and the stored buffers are the records themselves.
- PxeDatabase.KVPxeDatabase.GetNotes: the order of ids under one multi-map key is modelled as ascending id, the order in which the source inserts them; LMDB's order of encoded ids is not modelled.
- PxeDatabase.KVPxeDatabase.GetCompleteAddresses: the store's key order is not modelled; the result lists every stored address once, in some order.
- PxeDatabase.KVPxeDatabase.GetContracts: the store's key order is not modelled; the result lists every stored contract once, in some order.
- `estimateSize` of the PXE database is left out: it is a placeholder that returns 0.
- value_note: `commit` (Pedersen) is left out because its hash functions are not part of this model.
- value_note: `operator<<` is left out; it is text output.
- value_note: the `serialize` primitives are not part of this model; they are taken to be fixed-width big-endian (32 bytes for uint256 and field elements, 4 for uint32, a point as x then y), and field elements are not reduced modulo the field order.
- global_variables: `Fr`, `BufferReader` and `serializeToBuffer` are not part of this model; a field element is taken to serialise as 32 big-endian bytes and to be read back below the field modulus, with a read past the end of the buffer failing.
- global_variables: `TwoFieldHash` is not part of this model; it is taken to hold two field elements serialised in its constructor's order.
- secp256k1: `to_montgomery_form`, the coset generators, the cube root and primitive root constants, `get_generator`, and the field and group operations are not modelled; their implementations are in headers that are not part of this model.
- secp256k1: `uint256_t::invmod` is not part of this model; it is modelled as the extended Euclidean inverse.
- abi: `abi.ts` is not part of this model; an ABI type is reduced to its kind and its path.
- CircleCI: `subprocess`, `ProcessPoolExecutor`, `multiprocessing`, the build manifest file, stdin/stdout JSON and `__main__` are I/O and left out, with `get_manifest_job_names` and `get_already_built_manifest_job_names` that use them.
- CircleCI: a step or a run given as a bare string (such as "checkout") makes the source's `.get` raise; the model only has dictionary steps and runs.
- CircleCI: a workflow job given as a bare string is not modelled; each job is a one-key dictionary, its key the job's name and its value holding an optional requires list; other keys of the job are untouched and not modelled.
- CircleCI: the jobs dictionary is modelled as the sequence of its (name, job) pairs in insertion order.

## Findings

| source | as written | input that shows it | evidently intended | confidence | as-written member | corrected member |
|---|---|---|---|---|---|---|
| barretenberg/src/aztec/stdlib/primitives/packed_bytes/packed_bytes.cpp:184 | the spilled bytes are multiplied by `next_padding`, a bit count | B = 4 holding one byte 0x01, append 0x02030405 as 4 bytes: the new limb is 5 * 24 = 120 | multiply by 2^next_padding so the spilled bytes are left-aligned, giving 0x05000000 | high, not executed | PackedBytes.AppendLimbsAsWrittenFails | PackedBytes.AppendPacks |
| barretenberg/src/aztec/stdlib/primitives/packed_bytes/packed_bytes.cpp:186 | the check rebuilds the value as first part + second part * 2^(8 * bytes for current limb), the reverse of the split at lines 169-170 | v = 0x02030405, n = 4, free space 3: the rebuilt value is 0x05020304, so the equality check fails for a value that fits | first part * 2^(8 * bytes for new limb) + second part, which equals v exactly when v fits in n bytes | high, not executed | PackedBytes.ReconstructedAsWrittenFails | PackedBytes.AppendCheck |
| barretenberg/src/aztec/stdlib/primitives/packed_bytes/packed_bytes.cpp:209-210 | a short last slice's offsets are taken from `bytes_in_slice`, so it starts at the wrong byte | limb 0x01020300 holding 3 bytes in B = 4, slices of 2 bytes: slices [0x0102, 0x02] | the last slice covers the limb's last bytes: [0x0102, 0x03] | high, not executed | PackedBytes.LimbSlicesAsWrittenFails | PackedBytes.SlicesOfPackedLimb |
| barretenberg/src/aztec/stdlib/primitives/packed_bytes/packed_bytes.cpp:38-45 | num_elements is counted from num_bytes, but each limb takes only inputs_per_limb = B / bytes_per_input inputs and the last limb the rest; when bytes_per_input does not divide B the last limb can be handed more inputs than fit, and limb_shift = (B - (j + 1) * bytes_per_input) << 3 wraps in size_t | B = 32, bytes_per_input = 3, 21 inputs: 63 bytes give two limbs, inputs_per_limb is 10, so the last limb gets 11 inputs and the eleventh's shift is 2^64 - 8, outside any uint256_t | count the limbs from the inputs, ceil(n / inputs_per_limb), so that every limb takes at most inputs_per_limb inputs and each input lands whole in its limb; this agrees with the source exactly on the inputs where its limbs have room (FieldsFitIff, GroupedIsPackFields), which are the inputs FromFields models | medium (no caller with a non-dividing bytes_per_input is part of this model), not executed | PackedBytes.FieldsShiftAsWrittenWraps | PackedBytes.GroupedLimbAt |
| build-system/scripts/generate_circleci_config.py:69 | kept jobs' requires are filtered by the global `jobs_to_remove` instead of the `to_remove` parameter | remove "build" with the global list empty: "test" still requires the removed "build" | filter by `to_remove`, so no kept job requires a removed one | medium (the only call site passes the global itself and is commented out), not executed | CircleciConfig.AsWrittenKeepsRemovedDependency | CircleciConfig.CorrectedDropsRemovedDependency |
