# arnm, modelled and verified

arnm is a C library of allocators and containers. This project models its in-memory state machines in
Dafny and proves what they promise. `dafny verify dfyconfig.toml` checks all of it.

The files follow the program, lowest layer first.

* `Results`, `Order`, `Word64`, `WordBuffer`: the answers of the calls; listings of a set in either
  direction and pages of a listing; 64 bit words by their bits, and buffers of 1024 of them.
* `Memory`, `BlockPool`: arenas and chains of arenas; the graded pool that cuts power of two blocks from
  them. An address is a number, a handle knows the blocks it has reserved and their bytes.
* `Containers`, `Views`, `RoaringSet`, `Sources`: one key's values as an array, as bits or read in place;
  what a set looks like between two calls; the set with its blocks; the walk over a set's keys.
* `Kernels`, `Ranges`, `RoaringOps`: the operations on two containers, the part of a range that falls
  into a key, and the four operations that build a set.
* `RoaringFamily`: any number of sets over one pool, and any run of calls on them.
* `Merging`, `KeyBits`, `KeyUnion`, `Cursors`, `QueryKeys`, `SparseUnion`, `QueryWalk`, `RoaringQuery`,
  `RoaringReads`: the strategies a query chooses between, the walk over the keys, and the answers.
* `KeyMap`, `BucketVector`, `FixedRing`: the hash index, the vector whose elements never move, the ring.
* `Utf8`, `Base64`, `Hex`, `Decimal`: the validator and the codecs.
* `Ladder`, `PopFold`: the constant time ladder lookup and the branchless population counts.
* `JsonSpan`: the bridge that gives a document back in one step.

A set of 32 bit values is a mathematical `set<nat>`, its listing in a direction a sorted sequence, and a
page the window `skip .. skip + size` of that listing. Every counting strategy is proved to give the size
of the set, every page strategy the window. The operations are methods of classes over the source's own
fields; each keeps the class's `Valid()`, so what `Valid()` says holds after every sequence of calls. A
call into an allocator that may refuse takes the answer as a parameter. Where the library is its own
allocator the answer is proved: `Handle.CanServe` and `Pool.CanServe` say, from the state before the call,
whether a request is served, and only the host below them is free, an arbitrary sequence of yes and no
(`Handle.grants`). So each theorem covers a refusal at every allocation, and a call that need not fail does
not.

Where the code and what is said about it part, the code is modelled:

* `arnm_realloc` of a NULL buffer on an arena or a chain reserves the block and answers the warning
  (src/memory.c:574-586); so does the model.
* The fixed ring admits capacities for which head + index leaves 32 bits. `FixedRing.SlotExact` says
  exactly when the slot is right, `FixedRing.SlotOverflows` names an admitted ring where it is not, and
  `FixedRing.Ring.Push` says what the queue becomes there.
* `arnm_bvec_grow` is public and does not ask whether the open bucket is full.
  `BucketVector.Vector.Grow` states what a direct call does: the vector stays valid if and only if the
  open bucket was full or the call was refused.
* The base64 decoder takes a last letter whose pad bits are not zero, which section 3.5 of RFC 4648
  leaves to the implementation; `Base64.PadBitsIgnored` shows two texts with one meaning.

## Model

| member | source | states |
|---|---|---|
| `RoaringQuery.Cardinality` | src/roaring_query.c:1274-1295 | answered if and only if none of the three lists is longer than the limit; then the count is exactly the size of the set of values in range that are in every `all` set, in some `any` set if any is named, and in no `none` set, whichever strategy each key takes |
| `RoaringQuery.Page` | src/roaring_query.c:1347-1377 | answered under the same condition; a page is exactly entries skip .. skip + size of the matches in the direction asked for |
| `RoaringQuery.ListMatches` | src/roaring_query.c:1297-1345 | answered under the same condition; one walk gives that page and the number of all matches, and narrowing a key for the page changes neither |
| `RoaringQuery.WalkPage` | src/roaring_query.c:1364-1373 | walking keys until the page is full gives the page of all matches |
| `RoaringQuery.WalkListing` | src/roaring_query.c:1322-1339 | counting every key once and reading only where the page lies gives the page and the total |
| `RoaringQuery.IsSparseUnion` | src/roaring_query.c:1269-1272 | the short way is taken exactly for a union of sparse sets with nothing to intersect or subtract |
| `RoaringQuery.SparseMatches` | src/roaring_query.c:1269-1272 | what such a query matches is the union of its sets inside the range |
| `RoaringQuery.PageGrows` | src/roaring_query.c:1364-1373 | a page that is right for the keys before one is right for the keys up to it once that key's stretch is appended |
| `RoaringQuery.KeyPassed` | src/roaring_query.c:1329-1338 | a skip of at least the size of a key leaves that key's share of the page empty |
| `QueryWalk.NextKey` | src/roaring_query.c:790-889 | the walk hands out keys in order; what it passes over holds no match, and the parts and bounds it hands out, narrowed or not, have exactly the matches of the key |
| `QueryWalk.NextCandidate` | src/roaring_query.c:807-835 | the next key every `all` set has, or the nearest of an `any` set; none before it holds a match |
| `QueryWalk.Align` | src/roaring_query.c:809-822 | pulling every `all` source to the one furthest along ends, and ends on the next key all of them have |
| `QueryWalk.NearestKey` | src/roaring_query.c:825-834 | without `all` the nearest key any source stands on |
| `QueryWalk.Seek` | src/roaring_query.c:779-783 | moved forward, a source skips no key at or past the one sought |
| `QueryWalk.PullList` | src/roaring_query.c:812-822 | one round over the sources keeps every match ahead and never moves the key back |
| `QueryWalk.AdvancePast` | src/roaring_query.c:792-805 | sources standing on the last key leave it, the others stay |
| `QueryWalk.BeginWalk` | src/roaring_query.c:744-771 | a walk begins with every key of the range ahead |
| `QueryWalk.PartReach` | src/roaring_query.c:33-50 | the reach known without a scan holds every value of the part |
| `QueryWalk.LastReach` | src/roaring_query.c:33-50 | the set's maximum bounds its last container |
| `QueryWalk.Gather` | src/roaring_query.c:854-872 | the parts gathered hold together what the sets of the list have of the key; the widest reach bounds them |
| `QueryWalk.GatherAll` | src/roaring_query.c:842-851 | every `all` set gives its part, and the narrowest reach bounds every match |
| `QueryWalk.GatherKey` | src/roaring_query.c:837-888 | the key handed out has the query's matches of that key; a key that is dropped has none |
| `QueryWalk.MatchesAt` | src/roaring_query.c:837-878 | parts and bounds say exactly which values of the key match |
| `QueryWalk.NarrowedKey` | src/roaring_query.c:879-887 | bounds that leave out no match leave the matches as they are, and crossed bounds mean there are none |
| `QueryWalk.ReachHolds` | src/roaring_query.c:848-885 | no match lies outside the reach of the parts |
| `QueryWalk.MatchesInAll` | src/roaring_query.c:807-835 | a query that names neither `all` nor `any` matches nothing |
| `QueryWalk.KeyAbsent` | src/roaring_bitmap.c:597-627 | a set has no value of a key it has no entry for |
| `QueryKeys.KeyCardinality` | src/roaring_query.c:1178-1205 | the count of a key is the number of its matches, whichever of the four ways is taken |
| `QueryKeys.KeyPage` | src/roaring_query.c:1207-1252 | the page of a key is the stretch of its matches asked for, and the skip left is exact |
| `QueryKeys.CountSlice` | src/roaring_query.c:1022-1037 | probing the smallest part's slice counts exactly the matches |
| `QueryKeys.PageSlice` | src/roaring_query.c:1040-1062 | probing it from either end writes exactly the page |
| `QueryKeys.ProbesMatch` | src/roaring_query.c:954-969 | for a value the driver holds, the probes say yes if and only if it matches |
| `QueryKeys.DriverMatches` | src/roaring_query.c:938-969 | a value of the driver matches if and only if the probes say so |
| `QueryKeys.MatchesInSlice` | src/roaring_query.c:984-1013 | every match of the key lies in the driver's slice |
| `QueryKeys.KeyDriver` | src/roaring_query.c:1064-1070 | the part with the fewest values drives |
| `QueryKeys.MatchBits` | src/roaring_query.c:1138-1166 | the word buffer spells exactly the matches, and their count is returned |
| `QueryKeys.AllBits` | src/roaring_query.c:1138-1166 | the parts of `all` combined word by word leave the bits all of them have |
| `KeyUnion.KeyUnionCardinality` | src/roaring_query.c:434-444 | the count of a key's union, by bits, by merging arrays or by counting bitmaps and adding arrays |
| `KeyUnion.KeyUnionSpans` | src/roaring_query.c:299-323 | the copied slices never leave the 128 slot scratch, and each span is its part's slice |
| `KeyUnion.MixedUnionCardinality` | src/roaring_query.c:360-412 | the bitmaps' share and what the arrays add to it make the size of the union |
| `KeyUnion.MergedArraysCardinality` | src/roaring_query.c:326-345 | merging the arrays counts each distinct value once |
| `KeyUnion.CountMerged` | src/roaring_query.c:326-345 | the merge that drops spans that ran out counts what no bitmap has already |
| `KeyUnion.CountBitmaps` | src/roaring_query.c:360-412 | the union of the bitmaps counted without storing it |
| `KeyUnion.ArrayValuesInRange` | src/roaring_query.c:415-432 | the values the arrays have in the range, shared ones counted each time |
| `KeyUnion.SpansUnion` | src/roaring_query.c:299-323 | the spans together are the union of the parts inside the range |
| `KeyBits.UnionWords` | src/roaring_query.c:258-285 | the union as bits, and its size |
| `KeyBits.BitsOfPart` | src/roaring_query.c:1073-1101 | sets exactly the bits of the part inside the range |
| `KeyBits.BitsWithoutPart` | src/roaring_query.c:1104-1132 | clears exactly the bits of the part inside the range |
| `KeyBits.WordsEmit` | src/roaring_query.c:450-485 | up to `size` values of the buffer after the skip, in either direction; a word passed over is counted, never read |
| `KeyBits.SkipBits` | src/roaring_query.c:473-476 | the word the skip ends in loses exactly the values skipped |
| `KeyBits.WordPassed` | src/roaring_query.c:468-472 | passing over a whole word passes over as many entries as it has bits |
| `Cursors.KeyUnionEmit` | src/roaring_query.c:650-711 | the page of a key's union, from one part, through bits or through cursors |
| `Cursors.MergedCursorsEmit` | src/roaring_query.c:594-641 | the cursor merge writes exactly the page of the union |
| `Cursors.SeekWord` | src/roaring_query.c:504-524 | the cursor stands on the next set bit inside the range, and passed over none |
| `Cursors.BeginCursor` | src/roaring_query.c:526-574 | a cursor begins on the first value its part has inside the range |
| `Cursors.NextCursor` | src/roaring_query.c:576-591 | one step leaves everything but the value it stood on |
| `Cursors.StepCursors` | src/roaring_query.c:616-626 | every cursor on the picked value moves, and one that ends is replaced by the last without losing a value |
| `Cursors.TakeSlice` | src/roaring_query.c:653-699 | a slice read from either end gives its part of the page |
| `SparseUnion.UnionCardinality` | src/roaring_query.c:133-198 | the distinct values of sparse sets, merged, by length or by bits key by key |
| `SparseUnion.UnionPage` | src/roaring_query.c:201-255 | the page of the union of sparse sets in either direction |
| `SparseUnion.MergedCardinality` | src/roaring_query.c:101-124 | the merge counts each distinct value once |
| `SparseUnion.TakeKey` | src/roaring_query.c:150-179 | the spans are cut at the end of the key: what lies in it, and what is left |
| `SparseUnion.KeyInBits` | src/roaring_query.c:182-192 | one key's share of the union, counted in a buffer |
| `SparseUnion.SpansInRange` | src/roaring_query.c:77-98 | the spans are the union of the sets inside the range |
| `Merging.Step` | src/roaring_query.c:111-121 | a step of the merge removes exactly the picked value from what is left |
| `Merging.AllSwapRemoved` | src/roaring_query.c:113-118 | replacing a part that ran out by the last one loses nothing |
| `Merging.PickFirst` | src/roaring_query.c:105-109 | the nearest of the heads is the first value of the whole union |
| `RoaringReads.Contains` | src/roaring_bitmap.c:377-394 | true if and only if the set has the value |
| `RoaringReads.RangeCount` | src/roaring_bitmap.c:417-434 | how many values lie in the range |
| `RoaringReads.Minimum` | src/roaring_bitmap.c:353-369 | the smallest value, if there is one |
| `RoaringReads.Select` | src/roaring_bitmap.c:436-458 | the value of a rank, while the set has one |
| `RoaringReads.WordsSelect` | src/roaring_bitmap.c:24-37 | word and bit of the rank-th set bit of a buffer |
| `RoaringReads.RankInvertsSelect` | src/roaring_bitmap.c:417-458 | counting up to the value of rank r gives r + 1 |
| `RoaringReads.Page` | src/roaring_bitmap.c:523-542 | entries skip .. skip + size of the set in either direction |
| `RoaringReads.PageUp` | src/roaring_bitmap.c:460-488 | upwards from a container and rank |
| `RoaringReads.PageDown` | src/roaring_bitmap.c:490-521 | downwards from a container and rank |
| `RoaringReads.ReadBitmap` | src/roaring_bitmap.c:473-485 | a bitmap read bit by bit from a rank on continues the page |
| `RoaringOps.And` | src/roaring_ops.c:310-361 | the output becomes exactly the values of both sets inside the range, valid in every respect, the inputs unchanged; a refusal anywhere leaves it empty and everybody else's blocks as they were |
| `RoaringOps.Or` | src/roaring_ops.c:363-437 | the same for the values of either set |
| `RoaringOps.AndNot` | src/roaring_ops.c:439-480 | the same for the values of the first set the second lacks |
| `RoaringOps.CopyRange` | src/roaring_ops.c:482-508 | the same for one set inside the range |
| `RoaringOps.Finish` | src/roaring_ops.c:229-234 | a failed operation gives back whatever it built |
| `RoaringOps.AndWalk` | src/roaring_ops.c:328-360 | walking two directories, pulling the one behind, meets every key both sets have |
| `RoaringOps.OrWalk` | src/roaring_ops.c:395-436 | walking two directories takes every key either has, in order |
| `RoaringOps.AndNotWalk` | src/roaring_ops.c:452-479 | the first set's keys, each without what the second has of it |
| `RoaringOps.CopyWalk` | src/roaring_ops.c:497-507 | the keys of one set inside the range |
| `RoaringOps.AndKey` | src/roaring_ops.c:343-355 | one key of both sets: the values both containers hold, inside the bounds |
| `RoaringOps.OrKey` | src/roaring_ops.c:420-431 | the values either container holds, inside the bounds |
| `RoaringOps.AndNotKey` | src/roaring_ops.c:465-475 | the values only the first container holds, inside the bounds |
| `RoaringOps.EmitClip` | src/roaring_ops.c:38-56 | one container alone, cut to the bounds |
| `RoaringOps.FilterPart` | src/roaring_ops.c:100-114 | the values of an array whose bit is set, or clear |
| `RoaringOps.SparseFilter` | src/roaring_ops.c:253-308 | the values of a sparse set in the range that another set of either form has, or lacks |
| `RoaringOps.FilterByContainers` | src/roaring_ops.c:279-306 | the container looked up once per key decides every value of the key |
| `RoaringOps.ContainerHas` | src/roaring_ops.c:242-251 | an array walked forward across calls still answers membership |
| `Kernels.AndArrays` | src/roaring_ops.c:58-97 | the intersection of two sorted arrays, by looking up the small one or walking both |
| `Kernels.Merge` | src/roaring_ops.c:181-196 | the union of two sorted arrays in one walk |
| `Kernels.FilterByWalk` | src/roaring_ops.c:199-212 | the values of one array that are in the other, or are not |
| `Kernels.FilterByWords` | src/roaring_ops.c:100-114 | the same against bits |
| `Kernels.CombineWords` | src/roaring_ops.c:119-140 | two bitmaps combined word by word spell the combination of the two sets inside the range, with its count |
| `Kernels.WordsWithArray` | src/roaring_ops.c:143-162 | a bitmap with an array's values set or cleared |
| `Kernels.ArraysToWords` | src/roaring_ops.c:169-180 | two arrays too large to merge become bits, counted |
| `Ranges.Bounds` | src/roaring_intern.h:207-212 | the two bounds of a key name exactly the low parts whose values lie in the range |
| `Ranges.Gap` | src/roaring_bitmap.c:597-637 | no value of the set lies between the last key passed and the one its source stands on |
| `Ranges.RankJoins` | src/roaring_query.c:774-776 | one key more joins after everything walked before it, in either direction |
| `Ranges.KeyVisited` | src/roaring_ops.c:332-360 | every value of the range has one of the keys the walk visits |
| `Sources.Begin` | src/roaring_bitmap.c:597-627 | a source begins with every key of the range ahead, for either form and direction |
| `Sources.Advance` | src/roaring_bitmap.c:629-637 | one step leaves every key but the current one |
| `Sources.Load` | src/roaring_bitmap.c:546-595 | what the source stands on is the nearest key left, its container holding exactly the set's values of it |
| `Sources.CurrentIsFirst` | src/roaring_bitmap.c:546-595 | the current key is the first of the keys left |
| `Sources.RestAfter` | src/roaring_bitmap.c:629-637 | passing the current key leaves the others |
| `Sources.FirstContainer` | src/roaring_intern.h:191-204 | the first container at or above a key |
| `Sources.ContainerAfter` | src/roaring_intern.h:245-259 | the first container above a key |
| `RoaringSet.RoaringBitmap.Add` | src/roaring_bitmap.c:145-199 | in ascending order `add` is set insertion across both changes of form; it is refused exactly for a smaller value, a full count or a refused block, and then the set of values is as it was; every block stays the smallest that holds its share |
| `RoaringSet.RoaringBitmap.SparseAdd` | src/roaring_bitmap.c:120-141 | below the limit a value is appended, the block doubling when full |
| `RoaringSet.RoaringBitmap.AddToLast` | src/roaring_bitmap.c:163-180 | the value joins the last container; refused, nothing changes |
| `RoaringSet.RoaringBitmap.AddNew` | src/roaring_bitmap.c:181-198 | the value opens a container; refused, the values are as they were |
| `RoaringSet.RoaringBitmap.Extend` | src/roaring_bitmap.c:164-180 | the container with one value more is sound and of the kind its count asks for |
| `RoaringSet.ArrayToBitmap` | src/roaring_bitmap.c:86-104 | a full array becomes a bitmap of the same values and the new one, in another block |
| `RoaringSet.ArrayGrow` | src/roaring_bitmap.c:107-117 | the container in a block of the next exponent, the old block given back |
| `RoaringSet.RoaringBitmap.EmitArray` | src/roaring_bitmap.c:264-290 | the values join as one array container, or everything is given back; refused exactly for a count beyond 32 bits or a refused block |
| `RoaringSet.RoaringBitmap.EmitWords` | src/roaring_bitmap.c:217-262 | the bits join as one container whose form its count decides |
| `RoaringSet.RoaringBitmap.PushContainer` | src/roaring_bitmap.c:62-83 | appended to the directory, which doubles when full |
| `RoaringSet.RoaringBitmap.SparseToContainers` | src/roaring_bitmap.c:317-329 | the set changes form and keeps its values, or nothing happens |
| `RoaringSet.RoaringBitmap.ValuesToContainers` | src/roaring_bitmap.c:299-314 | sorted values become one array per key |
| `RoaringSet.RoaringBitmap.ValuesResult` | src/roaring_bitmap.c:332-349 | the empty set becomes the set of the values, sparse up to the limit |
| `RoaringSet.RoaringBitmap.Free` | src/roaring_bitmap.c:46-59 | every block of the set goes back and no other |
| `RoaringSet.RoaringBitmap.LentIsOwned` | src/roaring_intern.h:48-60 | the pool's lent bytes are the bytes of the set's blocks plus those of everybody else, which every call leaves alone |
| `RoaringFamily.Run` | src/roaring_ops.c:310-508 | any run of add, free, and, or, andnot and copy_range on any sets over one pool, each call refused or not: every set is what the run makes of mathematical sets, and the bytes lent are the sum of what the sets own; over a pool that never runs short every answer is the one the mathematical sets call for |
| `RoaringFamily.Do` | src/roaring_bitmap.c:145-199 | one call keeps the lent blocks shared out between the sets and changes one of them as asked or none; it succeeds if and only if the mathematical sets allow it and no block was refused |
| `RoaringFamily.RunDetermined` | src/roaring_ops.c:310-508 | where no block is refused the calls alone decide what the sets become |
| `RoaringFamily.AddAccepted` | src/roaring_bitmap.c:145-160 | the order `add` asks for, in terms of the set |
| `RoaringFamily.EmptyModel` | src/roaring_ops.c:213-227 | an output passes the checks if and only if its set is empty |
| `RoaringFamily.ReleaseAll` | src/roaring_bitmap.c:46-59 | once every set is freed nothing is lent |
| `RoaringFamily.LentBytes` | src/roaring_intern.h:48-60 | the pool's counter is the sum over the sets |
| `RoaringFamily.PartitionBytes` | src/roaring_intern.h:48-60 | the bytes of disjoint shares add up to the bytes of all |
| `RoaringFamily.ShareChanged` | src/roaring_ops.c:229-234 | a call that leaves the others' blocks alone keeps the shares disjoint and complete |
| `RoaringSet.Log2ForBytes` | src/roaring_intern.h:62-67 | the smallest block that holds the bytes |
| `RoaringSet.TightUnique` | src/roaring_intern.h:62-67 | one block size is the smallest that holds so many bytes, and every block a valid set owns is of it, so what a set lends is decided by its contents |
| `RoaringSet.TightNext` | src/roaring_bitmap.c:62-83 | doubling a full block gives the smallest for one entry more |
| `RoaringSet.FullDirectory` | src/roaring_bitmap.c:62-83 | a directory never needs a block beyond the largest grade of a pool by default |
| `RoaringSet.KeysCounted` | src/roaring_bitmap.c:62-83 | there are no more containers than keys |
| `RoaringSet.SwitchPoint` | src/roaring_intern.h:27-31 | an array at its limit takes the block a bitmap takes |
| `Views.LastGrown` | src/roaring_bitmap.c:163-198 | one low part more in the last container is one value more in the set |
| `Containers.LowerBound` | src/roaring_intern.h:113-129 | everything before the index is below the value, everything from it on is not |
| `Containers.UpperBound` | src/roaring_intern.h:132-147 | the same for above |
| `Containers.RangeCardinality` | src/roaring_bitmap.c:396-415 | the values of a container inside bounds, whatever its kind |
| `WordBuffer.WordsCardinality` | src/roaring_intern.h:218-231 | the number of bits set inside a range |
| `WordBuffer.ClipAndCount` | src/roaring_intern.h:234-242 | the edge words lose exactly the bits outside, and what is left is counted |
| `WordBuffer.ReadBits` | src/roaring_bitmap.c:230-236 | dropping the lowest bit again and again reads the bits in order |
| `WordBuffer.WordSpells` | src/roaring_intern.h:102-110 | the population count of a masked word is the size of the stretch it stands for |
| `WordBuffer.PopCount` | include/arnm/bitmap.h:176-185 | the number of set bits |
| `Word64.Ctz` | include/arnm/bitmap.h:102-110 | the least position with a set bit |
| `Word64.Top` | include/arnm/bitmap.h:121-129 | the greatest position with a set bit |
| `Word64.BitDropLowest` | src/roaring_query.c:473-476 | a word and its predecessor share every bit but the lowest |
| `Word64.KeepFrom` | src/roaring_intern.h:102-105 | the first word's mask keeps the bits from a position on |
| `Word64.KeepUpTo` | src/roaring_intern.h:107-110 | the last word's mask keeps the bits up to a position |
| `Order.ListingUnique` | src/roaring_query.c:774-776 | a set has one listing in each direction |
| `Order.WindowConcat` | src/roaring_query.c:450-485 | a page over two parts is the page of the first, then what is still wanted of the second |
| `Memory.Handle.Alloc` | src/memory.c:473-489 | served if and only if an arena fits the request, or the host is asked and grants ground: the block then starts where first fit puts it or at the new ground, overlaps no other, and no other arena moves; otherwise which error, and nothing is reserved |
| `Memory.Handle.AllocSingle` | src/memory.c:409-427 | the block is cut at the tail, or the shortfall is noted, saturating |
| `Memory.Handle.AllocChain` | src/memory.c:429-471 | the arena chosen is the first that serves the request in a scan from index 0; the host is asked only where none does and the cap allows it, and its answer decides |
| `Memory.Handle.Scan` | src/memory.c:440-454 | the scan from the marker on finds what the full scan finds, and the marker stays sound |
| `Memory.MarkerHarmless` | src/memory_intern.h:113-115 | first fit from the marker is first fit from the start while every arena before it is used up |
| `Memory.Handle.FindOwner` | src/memory.c:218-242 | once around the chain from the marker finds the arena of an address, if there is one |
| `Memory.Handle.Reopen` | src/memory.c:248-254 | the marker is sound again after an index went down |
| `Memory.Handle.Free` | src/memory.c:601-633 | the answer for every input: a tail block goes back, a buried one stays reserved with the warning, a foreign address is refused |
| `Memory.Handle.FreeRun` | src/memory.c:601-633 | a stretch goes back whole if and only if it ends where the arena does |
| `Memory.Handle.Realloc` | src/memory.c:491-587 | the answer from the state before the call: a block that can stretch at the tail of its arena does, at its address; without room a single arena refuses and notes the shortfall, a chain moves it exactly if it can serve the new size; a buried block shrinks to the warning and grows to a copy exactly if the size can be served. The first min(old, new) bytes arrive, no other block changes, nothing is lost or reserved twice, a failure changes nothing |
| `Memory.Handle.StretchOrMove` | src/memory.c:519-563 | a tail block to another size: in place, refused with the shortfall noted, or moved |
| `Memory.Handle.TailOf` | src/memory.c:93-100 | a block is at a tail, and can stretch there, if and only if the one arena that holds it says so |
| `Memory.Handle.ResizeTail` | src/memory.c:521-537 | a tail block resized in place; only one that shrinks can bring its arena back into the scan |
| `Memory.Handle.MoveTail` | src/memory.c:546-562 | a chain's tail block moves, exactly if the new size can be served, to where first fit puts it, with its bytes, and leaves nothing behind |
| `Memory.Handle.MoveBuried` | src/memory.c:574-586 | a buried block that grows is copied, exactly if the new size can be served, and the old one stays reserved |
| `Memory.Handle.Reset` | src/memory.c:33-52 | nothing is reserved any more, the ground stays |
| `Memory.Handle.Borrow` | src/memory.c:337-351 | the answer for every input; on success the ground joins the chain, otherwise nothing changes |
| `Memory.Handle.Shrink` | src/memory.c:353-371 | the chain is cut behind its last used or borrowed arena, no reserved block is lost, the marker is pulled in, and the answer is the descriptor vector's |
| `Memory.BlockAdded` | src/memory.c:409-427 | a block cut at the tail is aligned and apart from all others |
| `Memory.TailLowered` | src/memory.c:93-100 | taking the tail block back leaves every other block inside the used part |
| `Memory.TiledCut` | src/memory.c:409-427 | every byte of the used parts belongs to a reserved block, and still does when a block is cut |
| `Memory.TiledLowered` | src/memory.c:93-100 | and when a tail block goes back, so no byte is ever stranded |
| `Memory.TiledRun` | src/memory.c:601-633 | and when everything from a block on goes back |
| `Memory.StillInside` | src/memory.c:409-427 | bumping an index keeps every block where it is |
| `BlockPool.Pool.AllocLog2` | include/arnm/graded_block_pool.h:372-386 | the head of the grade's list if it has one; else the next bytes of the current arena if they reach; else the first bytes of a new arena, refused exactly where the chain refuses that. The block is apart from every other and counted in `lent_bytes`; a refusal changes neither |
| `BlockPool.Pool.FreeLog2` | include/arnm/graded_block_pool.h:401-416 | the block becomes the head of the list of its grade, so the next request of the grade gets it; `lent_bytes` falls by its size |
| `BlockPool.Pool.TakeFromList` | include/arnm/graded_block_pool.h:379-385 | the head of the list goes to the caller and the list loses it |
| `BlockPool.Pool.GenerousServes` | include/arnm/graded_block_pool.h:102-127 | a pool with the default grades over a host that never refuses hands out every block asked for |
| `BlockPool.Pool.constructor` | src/graded_block_pool.c:82-112 | the arenas are a number of largest blocks, capped; nothing is lent or cached |
| `BlockPool.Pool.AllocFresh` | src/graded_block_pool.c:161-180 | where the list is empty the block is the next of the current arena, or the first of a new one exactly if the chain grants it; the list is still empty after the split, so the retry is never taken |
| `BlockPool.Pool.SplitCurrent` | src/graded_block_pool.c:135-147 | no list grows by more than one block, none from the grade asked for on, and fewer bytes than the smallest grade stay uncut |
| `BlockPool.Pool.NextArena` | src/graded_block_pool.c:150-159 | succeeds exactly if the chain serves a whole arena; refused, arena and lists are unchanged; otherwise the arena is whole and the list asked for untouched |
| `BlockPool.Pool.SizeToLog2` | src/graded_block_pool.c:40-49 | the smallest grade that holds the size, or the reason there is none |
| `BlockPool.Pool.Alloc` | src/graded_block_pool.c:182-191 | served exactly if the grade of the size exists and has a block to give, and which error otherwise; a block at least as large as asked for |
| `BlockPool.Pool.Free` | src/graded_block_pool.c:215-226 | any size of the block's grade gives it back |
| `BlockPool.Pool.Realloc` | src/graded_block_pool.c:193-213 | served under the same condition: a new block with the first min(old, new) bytes, the old one given back, no other byte changed; refused, nothing changes |
| `BlockPool.Pool.Reset` | src/graded_block_pool.c:228-237 | nothing is lent or cached, the arenas stay with the chain |
| `BlockPool.CutConserved` | src/graded_block_pool.c:52-57 | bytes cut off the current arena are lent or cached from then on |
| `BlockPool.EndOfArena` | src/graded_block_pool.c:150-159 | leaving an arena loses less than one smallest grade, and the books still balance |
| `BlockPool.BytesJoined` | src/graded_block_pool.c:176-179 | the bytes of disjoint sets of blocks add up |
| `BlockPool.PowRest` | src/graded_block_pool.c:135-147 | a larger grade is whole pieces of every smaller one |
| `KeyMap.KeyMap.Find` | src/key_map.c:250-259 | true if and only if the key was inserted, with the id it was given |
| `KeyMap.KeyMap.GetOrInsert` | src/key_map.c:227-248 | a known key keeps its id and nothing changes; a new one gets the next id; refused, the map is as it was |
| `KeyMap.KeyMap.InsertAbsent` | src/key_map.c:184-212 | one key more or none; which of the two, and the size of the table afterwards, is determined by load, capacity and the answers of table and vector |
| `KeyMap.KeyMap.Probe` | include/arnm/key_map.h:347-361 | probing ends, on a slot that names the key or on a free one that proves it absent |
| `KeyMap.KeyMap.Rebuild` | src/key_map.c:56-86 | growing loses no key and changes no id |
| `KeyMap.KeyMap.Reserve` | src/key_map.c:142-156 | succeeds exactly if the count is in range, the vector has room and the table holds it or is granted; a new table is the smallest that does |
| `KeyMap.KeyMap.Clear` | src/key_map.c:158-162 | every key is forgotten, the table stays |
| `KeyMap.CapacityFor` | src/key_map.c:89-93 | the smallest table that holds the keys within the load limit |
| `KeyMap.CapacityLeast` | src/key_map.c:142-156 | a table holds the keys within its limit if and only if it is at least that large |
| `KeyMap.ThreeQuarters` | src/key_map.c:47-49 | a table is filled to three quarters |
| `KeyMap.Largest` | include/arnm/key_map.h:120-123 | the largest table is the last that fits one allocation, and the largest number of keys is what it holds |
| `KeyMap.FreeSlot` | include/arnm/key_map.h:347-361 | a table within its load limit has a free slot, so a probe ends |
| `KeyMap.Filled` | src/key_map.c:56-86 | filling the free slot a walk ended on keeps every other walk intact |
| `KeyMap.WalkMeets` | include/arnm/key_map.h:347-361 | a walk that ends at a free slot has passed the slot of every key with its home |
| `KeyMap.NotInMap` | include/arnm/key_map.h:347-361 | a free slot reached without meeting the key means the key is not in the map |
| `BucketVector.Vector.constructor` | src/bucket_vector.c:108-121 | an empty, valid vector of the given sizes |
| `BucketVector.Vector.Init` | src/bucket_vector.c:92-122 | refused exactly where a bucket has too few or too many slots, or an element or a bucket too many bytes |
| `BucketVector.Vector.Push` | src/bucket_vector.c:318-325 | appended if and only if a slot or a held bucket is left, or the allocator gives a bucket and the index has a slot for it or gets one; nothing else changes, no bucket moves, and a refusal adds nothing and says which of the two it was |
| `BucketVector.Vector.Emplace` | src/bucket_vector.c:307-316 | the slot after the last element, given under the same condition |
| `BucketVector.Vector.Grow` | src/bucket_vector.c:267-305 | for every state of the open bucket: when it succeeds; with the open bucket full it appends; with slots left in it the link between count and open bucket breaks, nothing else does, and the element stands that many places past its index |
| `BucketVector.Vector.Reserve` | src/bucket_vector.c:124-173 | room for the count without moving anything; exactly when it succeeds, which answer otherwise, and what a refusal part way leaves stays with the vector |
| `BucketVector.Vector.Pop` | src/bucket_vector.c:327-344 | the last element goes, every bucket stays |
| `BucketVector.Vector.Clear` | src/bucket_vector.c:234-240 | the elements go, the buckets stay |
| `BucketVector.Vector.Shrink` | src/bucket_vector.c:175-232 | no element moves; on the host every unused bucket goes, on an arena down to the first it keeps and no further; the answer for every case |
| `BucketVector.Vector.Release` | src/bucket_vector.c:181-205 | newest first or oldest first, slots above the count are empty afterwards |
| `BucketVector.Vector.Free` | src/bucket_vector.c:242-265 | what init left |
| `BucketVector.Vector.Get` | include/arnm/bucket_vector.h:304-309 | shift and mask read the element of the index |
| `BucketVector.Vector.CopyTo` | src/bucket_vector.c:346-361 | bucket by bucket the whole sequence, or nothing where it does not fit |
| `BucketVector.Vector.Passes` | src/bucket_vector.c:69-90 | the state check passes in every reachable state |
| `BucketVector.NeededIsLeast` | src/bucket_vector.c:132-139 | rounding up gives the fewest buckets that hold the count |
| `BucketVector.Vector.CountableBytes` | src/bucket_vector.c:129-134 | the bound on the count leaves room for the elements and the rounding up |
| `BucketVector.SlotOf` | include/arnm/bucket_vector.h:304-309 | shift and mask name the place of an element |
| `FixedRing.Ring.Push` | src/fixed_ring.c:107-130 | refused exactly while full; appended while head and size add up in 32 bits; where they do not, which live element the value replaces and what the queue then is |
| `FixedRing.Ring.Pop` | src/fixed_ring.c:132-143 | the front goes |
| `FixedRing.Ring.PopCopy` | src/fixed_ring.c:145-152 | the front is returned and goes |
| `FixedRing.Ring.CopyTo` | src/fixed_ring.c:154-173 | two runs write the queue in order, or nothing where it does not fit |
| `FixedRing.Ring.Get` | include/arnm/fixed_ring.h:306-310 | the element of the index, or, where head + index leaves 32 bits, which earlier one instead |
| `FixedRing.SlotExact` | include/arnm/fixed_ring.h:306-310 | the one-subtraction wrap names the right slot if and only if head + index fits 32 bits; a capacity up to 2^31 suffices |
| `FixedRing.SlotMissed` | include/arnm/fixed_ring.h:306-310 | the slot named where the sum does not fit is the one of the element 2^32 - capacity places further in front |
| `FixedRing.SlotOverflows` | src/fixed_ring.c:49-73 | a ring init admits where it does not |
| `FixedRing.Ring.Init` | src/fixed_ring.c:49-73 | refused exactly for nothing to hold, a wide element, or slots that do not fit one allocation |
| `FixedRing.ByDivision` | src/fixed_ring.c:54-56 | comparing with the quotient is comparing the product |
| `Utf8.ValidLength` | src/utf8.c:21-94 | the longest prefix that is well formed by section 4 of RFC 3629, and the full length if and only if all of it is |
| `Utf8.SkipAscii` | src/utf8.c:27-43 | the eight byte step and the byte loop together end at a byte outside ASCII or at the end |
| `Utf8.WordIsAscii` | src/utf8.c:35-40 | one mask tells whether all eight bytes are ASCII |
| `Utf8.AsksGrammar` | src/utf8.c:45-90 | the table of leads and first continuations is the grammar |
| `Utf8.NoFurther` | src/utf8.c:78-89 | where no character begins, no longer prefix is well formed |
| `Utf8.WellFormedIsEncoded` | src/utf8.c:6-19 | the grammar accepts exactly the encodings of sequences of Unicode scalar values |
| `Utf8.EncodesScalar` | src/utf8.c:6-19 | every scalar value is encoded as a character of the grammar and read back |
| `Utf8.DecodesChar` | src/utf8.c:6-19 | every character of the grammar encodes one scalar value: no surrogate, no overlong form |
| `Utf8.PrefixFree` | src/utf8.c:45-90 | no character is the beginning of another |
| `Base64.RoundTrip` | src/converter.c:527-568 | decoding what was encoded gives the bytes back, for all bytes |
| `Base64.Accepts` | src/converter.c:619-646 | the decoder accepts exactly padded base64 of section 4 of RFC 4648 |
| `Base64.PadBitsIgnored` | src/converter.c:619-646 | pad bits that are not zero are accepted and mean nothing |
| `Base64.GroupRoundTrip` | src/converter.c:527-568 | four groups of six bits give the three bytes back |
| `Base64.LetterIsAlphabet` | src/converter.c:256-257 | the letter of a value stands at its place in the alphabet of RFC 4648 |
| `Base64.LettersOfAlphabet` | src/converter.c:265-522 | a byte is read as a letter if and only if the alphabet has it |
| `Base64.BaseChange` | src/converter.c:543-549 | three bytes and the four values made of them spell one number, in base 256 and in base 64 |
| `Base64.BaseBack` | src/converter.c:636-643 | and so do four values and the three bytes read from them |
| `Base64.Vectors` | src/converter.c:527-568 | test vectors of section 10 of RFC 4648, and one of the last two letters |
| `Base64.GroupsFit` | src/converter.c:527-534 | the largest size is the last whose text and terminator are counted in 32 bits |
| `Base64.Encode` | src/converter.c:527-568 | refused exactly where characters and terminator leave 32 bits, untouched then; otherwise the encoding and its terminator, and no other byte |
| `Base64.DecodeInto` | src/converter.c:619-646 | the loop writes what the text stands for or zeros, the two buffers apart or the same |
| `Base64.FromBase64` | src/converter.c:648-670 | verdict, size and bytes for every text; what a refused text would have taken is zeroed and nothing else |
| `Base64.InSitu` | src/converter.c:672-690 | in place the verdict, the size, the bytes and the zeros are the same |
| `Hex.RoundTrip` | src/converter.c:167-228 | reading back what was written gives the bytes |
| `Hex.ToHex` | src/converter.c:167-185 | two digits per byte and the terminator |
| `Hex.FromHex` | src/converter.c:187-228 | accepted if and only if the length is even and every character a digit; zeroed otherwise |
| `Hex.BranchlessDigit` | src/converter.c:187-228 | the branchless test accepts exactly the digits and gives their values |
| `Hex.DigitIsLower` | src/converter.c:167-185 | the digit written for a value stands at its place in the lower case row |
| `Hex.ValueIsPlace` | src/converter.c:187-228 | a byte is read as a digit if and only if one of the two rows has it, and its value is its place |
| `Hex.HighFirst` | src/converter.c:167-228 | the first digit of a byte is its sixteens, the second its ones |
| `Hex.DashesBack` | src/converter.c:731-762 | putting the dashes in and taking them out undo each other |
| `Hex.UuidToString` | src/converter.c:749-762 | 36 characters in five parts and the terminator, and no other byte |
| `Hex.UuidFromString` | src/converter.c:731-747 | accepted if and only if the dashes are in place and the rest are digits |
| `Hex.UuidRoundTrip` | src/converter.c:731-762 | the text written for a uuid is accepted and read back as it |
| `Decimal.LadderMeasures` | src/converter.c:36-62 | the ladder gives the number of digits of every 64 bit number |
| `Decimal.Write` | src/converter.c:82-132 | given the ladder's size the digits fill exactly that many characters; a smaller size answers the size needed |
| `Decimal.WriteUnsigned` | src/converter.c:147-155 | the text of every unsigned number, if the buffer takes it |
| `Decimal.WriteSigned` | src/converter.c:157-165 | the text of every signed number, INT64_MIN among them |
| `Decimal.DigitsEvaluate` | src/converter.c:82-132 | the digits evaluate back to the number |
| `Decimal.SignedDigitsEvaluate` | src/converter.c:64-80 | and so do the signed ones |
| `PopFold.FoldIsPopCount64` | include/arnm/bitmap.h:176-185 | folds, one multiplication by 0x0101010101010101 and a shift by 56 give the number of set bits of every 64 bit value |
| `PopFold.FoldIsPopCount32` | include/arnm/bitmap.h:143-164 | folds, one multiplication by 0x01010101 and a shift by 24, all in 32 bits, give the number of set bits of every 32 bit value |
| `PopFold.OneMultiplication` | include/arnm/bitmap.h:176-185 | the constants of the multiplications are the products of the factors that each double the bytes summed |
| `Ladder.GradeForSize` | src/graded_arena_pool.c:64-72 | round, mask and count give the first rung that reaches the request, or none, as a walk would |
| `Ladder.GradeForCapacity` | src/graded_arena_pool.c:75-89 | the rung of exactly that capacity, if there is one |
| `Ladder.Inverse` | src/graded_arena_pool.c:64-89 | on a rung's own capacity both lookups answer that rung |
| `Ladder.BuildMask` | src/graded_arena_pool.c:108-123 | a list is accepted exactly if it is not empty and ascending, each entry one bit and between 8 and 2^31, whatever its length, and the mask names its rungs |
| `Ladder.NeverTooMany` | src/graded_arena_pool.c:102-104 | the test of the length refuses no list the others would take |
| `Ladder.CeilIsSmallest` | include/arnm/bit.h:66-74 | one bit, reaching the value, and half of it does not |
| `Ladder.RungsBelow` | src/graded_arena_pool.c:66-72 | the masked count is the number of rungs a walk would pass |
| `Ladder.RoundedReach` | src/graded_arena_pool.c:66-72 | a rung reaches the request if and only if it reaches it rounded up |
| `JsonSpan.Context.ReleaseSpan` | src/json_memory.h:217-225 | the run goes back if and only if it is counted in one arena, not empty and nobody else's block stands in it; then exactly its own pieces go, otherwise nothing changes |
| `JsonSpan.Context.BlockAlloc` | src/json_memory.h:111-135 | refused exactly for a bad size or a block the arena does not serve; the block joins the run with its charge, and the run is given up exactly where the sum would leave 32 bits |
| `JsonSpan.Context.BlockDispose` | src/json_memory.h:171-188 | a tail block leaves the run with its charge, a buried one stays in it and is reported |
| `JsonSpan.Context.BlockRealloc` | src/json_memory.h:137-169 | refused exactly for a bad size or where the arena refuses; where the block stays and where it moves; the payload arrives, the recorded size is the one the arena reserves, the run is given up |
| `JsonSpan.Context.Reset` | src/json_memory.h:99-102 | a new run begins with nothing in it |
| `JsonSpan.Context.ForeignAlloc` | src/memory.c:473-489 | a block of somebody else may join the arena at any moment, exactly if it is served |
| `JsonSpan.Context.ForeignFree` | src/memory.c:601-633 | and leave it, exactly if it is at the tail |
| `JsonSpan.Context.ForeignRealloc` | src/memory.c:491-587 | and be resized, with the answer `realloc` gives, the books still balanced |
| `JsonSpan.StretchEnds` | src/json_memory.h:217-225 | tail minus run start is the run's bytes plus the foreign bytes in between |
| `JsonSpan.ForeignFallsShort` | src/json_memory.h:190-225 | the run's own sum reaches the tail if and only if every piece is the run's own |

## Left out

- yyjson's side of src/json_reader.c and src/json_writer.c: yyjson is not part of this model; only the allocator bridge is.
- The headerless buffer hooks of src/json_memory.h: one block and its size, an easy member.
- src/duration.c and src/mono_timer.c: floating point and the system clock.
- src/fixed_arena_pool.c, src/dynamic_arena_pool.c, src/arena_free_list.h and the free lists of src/graded_arena_pool.c: counters and lists without a harder property than the block pool's.
- include/arnm/byte_buffer.h, src/result.c and the generated wrappers: bounds bookkeeping and names.
- NULL arguments, raw pointer casts, alignment of casts and calls that break the documented contract, such as a double free or a wrong size on free.
- The host as an allocator: its answers are parameters or an arbitrary sequence, one for the ground and the slot of its descriptor together, and a handle is an arena or a chain.
- include/arnm/hash.h: the hash is an arbitrary function of the key. The table's mask is written as the remainder by its power of two size.
- The values 1024 and 8 of ARNM_ROARING_SPARSE_MAX and ARNM_ROARING_QUERY_MAX: both stay arbitrary here, the first with twice its value within one array, so what is proved holds for every such choice.
- The links of a free list lie in the bytes of its blocks; the model keeps each list as a sequence, the head its first entry.
- The sets a query or an operation reads are taken as the values their fields have at the call, so a set changed by another thread during it is not captured.
- Pages and containers are written through pointers in the source; the model returns the page and keeps the contents of a container's block in the container.
- Loops the source repeats with one operator changed, such as the array merges, the array filters and the counting merges of a key, are one method with a parameter here.
- The heads `sparse_union_page` caches between two steps are read again at each step.
- The four character group of the base64 loop is read by one call, and the alphabet and digit tables are functions.
- Where the key map's table lies in its allocator: a table is granted or refused.
- RoaringBitmap.Add: a refused call may have changed the form of the set, as in the source, so only its values are promised unchanged. How many requests a call makes is not stated; the blocks the set owns afterwards, each with its size, are.
