# ForkBase, modelled and verified in Dafny

ForkBase stores lists, maps and sets as content-addressed trees (POS-trees): leaves hold
elements, meta nodes hold one entry per child, and a rolling hash over the encoded entries
decides where a node ends. This project models the logic that works on such trees, and the
protocols around it, and proves what they promise:

- comparing two trees while skipping equal hashes (`Overlap`, `Leaves`, `Comparator`,
  `Overlooked`, `Diffs`) against a plain look-up of every element;
- three-way merge (`Edits`, `Splices`, `Segments`, `Merger`, `MergeLaws`, `MergeOrder`,
  `MergeSymmetry`, `KeyMerge`) against the three-way value of every key;
- the rolling hash and content-defined chunking (`RollingHash`, `Words`, `Chunking`), and
  rebuilding a tree around an edit or a transaction (`Builder`, `PosTree`, `Transactions`)
  against building it from nothing;
- the blocking queue, the synchronous worker and the client's request and response rendezvous
  (`BlockingQueue`, `SyncTaskLine`, `ClientProtocol`) as interleaved steps, over every run;
- the iterator over the differences of two maps (`Iterators`, `MapDiff`) and streaming SHA-256
  (`Sha256`).

`Keys`, `Outcomes`, `Sequences`, `Ranges` and `Trees` hold what these share.

How the model stands for the program:

- A tree is a value. Equal hashes mean equal nodes: collisions are taken to be absent.
- There are two models of a tree, for what the two halves of the program see of it. Comparison
  and merge read the cached counts and keys of a meta entry (`Trees.Tree`, any chunking); the
  builder reads the encoded bytes of an entry and decides the chunking (`Chunking.Node`).
  Positions in either are those of `Sequences`.
- A cursor is a position among the elements of a tree, as its header describes it.
- Integers are unbounded, except the 32-bit words of the rolling hash and of SHA-256 and the
  16-bit digits of its length, which are modelled as written.
- A fatal check is a value: `None`, `Aborted`, or `false` from `AddSplice`.
- Every thread step between two lock operations is one step of a run; spurious wake-ups are
  steps too. The network answers each request exactly once, with the source id it was sent
  with.
- The byte table of the rolling hash, the encoding of an entry and what a worker does with an
  item are parameters: nothing proved depends on what they are.

Where the code does not do what its comments say, the model follows the code, and a lemma
states exactly when the two agree:

- By position, the equal-hash shortcut ignores where the two nodes start. The comparison is
  the position by position one if and only if no such pair is met, which is always so for a
  list no longer than the other (`IndexDiff`, `ShorterIsAligned`, `LongerCanBeMisaligned`).
- By key, the search starts from the one-byte key 0, which is not below all keys. Along the
  left edge of both trees it moves on over leading entries whose key is not above that key, and
  the elements it so passes by are reported as missing: exactly those, so a caller is safe if no
  left key is so small or no right entry has such a key (`PassedIsOutside`, `KeyDiff`,
  `OverlooksSmall`, `SmallestKeyCanBeMissed`).
- The comparison of two edits' contents compares the left bytes with themselves, so any two
  edits of the same base range with equally many elements count as one (`IsIdenticalContents`,
  `MergeAsIntended`, `ConflictCanPass`). The walk and the merge take a flag: written or intended.
- Edits of the two versions that touch are both applied, whatever keys they bring in. A merge
  that goes through is in key order if and only if such edits are in turn (`MergeSorted`,
  `TouchingAppends`, `TouchingReplacements`); then, if no two different edits counted as one,
  every key has its three-way value (`MergeThreeWay`). A result out of order is not always noticed: a leaf is checked by itself
  (src/node/map_node.cc:26-43) and a meta node for its maximal keys (src/node/meta_node.cc:28-31),
  so keys out of order across the end of a leaf are stored.
- The order of the versions matters to a merge if and only if edits over the same part of the
  base bring in different elements (`MergeSymmetric`).
- A leaf hands out no segment, not even an empty one, from its end, so a version that removes
  the tail of the base cannot be merged (`GetSegmentsFromIndexRange`, `MergeOutcome`,
  `CutsTailMeans`, `TailCutAborts`).
- Removing everything from the start of a later leaf to the end, with nothing added, leaves an
  empty leaf behind, so the tree is not the one built from its elements (`RebuildLevel`,
  `CommitIsBuild`, `LastLeafRemoved`).
- Nothing makes the levels above a level shrink. They do if no meta entry holds a boundary by
  itself, as none shorter than the window does (`HalvingRoots`, `ShortNotAlone`); if every entry
  does, no level above several leaves ever has a single chunk (`AllAlone`, `LevelsCanStay`).
- The message length of SHA-256 is added to a digit in 32 bits and can overflow there. The
  length is right if and only if no piece, with the lowest 16 bits of the length before it, comes
  to 2^32 (`LengthExact`, `BitsExact`, `LongPiece`).

## Model

| member | source | states |
|---|---|---|
| `Keys.SliceTrichotomy` | include/spec/slice.h:39-52 | of two slices exactly one is less than the other or they are equal, in the byte order with the shorter prefix first |
| `Keys.SliceTransitive` | include/spec/slice.h:39-43 | the byte order of slices is transitive |
| `Keys.Trichotomy` | src/node/orderedkey.cc:32-45 | ordered keys are totally ordered |
| `Ranges.Compact` | src/node/cursor.cc:13-37 | compaction goes through exactly if no later range is empty or starts before the end of its predecessor; for ordered ranges the result is maximal and covers the same indices |
| `Ranges.CompactMaps` | src/node/cursor.cc:39-78 | compaction of range pairs goes through exactly if every pair continues or follows its predecessor, and then is the recursive compaction |
| `Ranges.CompactionPairs` | src/node/cursor.cc:52-76 | compacting range pairs of equal lengths keeps exactly the pairs of indices |
| `Ranges.CompactionMaximal` | include/node/cursor.h:29-33 | ordered maps compact without failure to maximal maps that pair the same indices |
| `Ranges.MaximalUnique` | include/node/cursor.h:24-27 | maximal ranges are determined by the indices they cover, so results are canonical |
| `Ranges.MaximalMapsUnique` | include/node/cursor.h:29-33 | maximal maps are determined by the pairs they make |
| `Overlap.SmallestOverlap` | include/node/node_comparator.h:535-584 | the loop and its recursion terminate and return the node and start index of the recursive search |
| `Overlap.DeepestHolds` | include/node/node_comparator.h:535-584 | the node found holds every element whose key lies in the span, at exactly the index returned, through any depth of descent |
| `Overlap.DeepestNarrows` | include/node/node_comparator.h:551-583 | whatever the bounds, the search returns a node of the tree with the index of its first element; the elements it leaves out before have keys up to the lower bound, those behind have keys past the upper one |
| `Overlap.DeepestIsSmallest` | include/node/node_comparator.h:557-579 | the node found is a leaf, or the span straddles the boundary between two of its entries |
| `Overlap.DeepestClear` | include/node/node_comparator.h:560-565 | where no entry has a key up to the lower bound, the search passes nothing by |
| `Overlap.BoundCuts` | include/node/node_comparator.h:29-39 | the bound of the first n elements separates them from the rest, by index as by key |
| `Overlap.NodeBound` | include/node/node_comparator.h:37-58 | the cached or last key of a node is the bound of the elements up to its end |
| `Leaves.IntersectLeaves` | include/node/node_comparator.h:85-151 | the intersecting loop computes the join of the two leaves |
| `Leaves.DiffLeaves` | include/node/node_comparator.h:169-263 | the differing loop, with its tail loop, computes the join of the two leaves |
| `Leaves.MapLeaves` | include/node/node_comparator.h:286-379 | the mapping loop computes the join of the two leaves |
| `Leaves.JoinFromExact` | include/node/node_comparator.h:70-380 | from any point of the join on, every element is reported exactly if selected, and paired only with its match |
| `Leaves.JoinExact` | include/node/node_comparator.h:70-380 | the join of two nodes, whatever the right one holds, reports in order exactly the selected elements of the left one, matched against the right node |
| `Comparator.IterateLeaves` | include/node/node_comparator.h:497-502 | the traversal of two nodes reports exactly the selected elements of the left one, matched against the right one |
| `Comparator.IdenticalExact` | include/node/node_comparator.h:77-83 | for equal nodes at agreeing positions, or by key, the shortcut is exact |
| `Comparator.MisplacedWrong` | include/node/node_comparator.h:491-495 | equal nodes at different positions lie past the end of the right side, and the shortcut is wrong about the last element |
| `Comparator.ChildComparable` | include/node/node_comparator.h:504-530 | the running minimum key and start index hand each child a right bound and span |
| `Comparator.CompareNodes` | include/node/node_comparator.h:460-533 | every element of the left node is reported rightly, against the part of the right tree it is compared with, if and only if no pair of equal nodes at different positions is met, through any depth and any chunking |
| `Comparator.CompareChildren` | include/node/node_comparator.h:504-532 | the concatenated results of the children are right if and only if no pair below them is misplaced |
| `Comparator.FoundKeeps` | include/node/node_comparator.h:467-480 | under a right bound the search leaves out no right element with the key of a left one; under any bound it leaves out none behind |
| `Comparator.RightConcat` | include/node/node_comparator.h:521-531 | results for adjacent spans are both right if and only if their concatenation is |
| `Overlooked.WindowsKeep` | include/node/node_comparator.h:460-533 | under a right bound an element is compared with every right element that has its key, through any depth |
| `Overlooked.PassedIsOutside` | include/node/node_comparator.h:551-583 | an element is compared past its equal on the right if and only if, along the left edge of both trees, the search moves on to a later entry behind it |
| `Overlooked.PassedIsSmall` | include/node/node_comparator.h:60-63 | only elements whose key is at most the smallest key are ever passed by |
| `Overlooked.ClearNotPassed` | include/node/node_comparator.h:560-565 | nothing is passed by in a right tree none of whose entries has a key up to the smallest key |
| `Diffs.Compare` | include/node/node_comparator.h:439-458 | from the two roots on, every element is reported rightly against the part of the right tree it is compared with, by key always, by position if and only if no equal pair is misplaced |
| `Diffs.KeyDiff` | src/types/umap.cc:50-62 | the ranges are maximal and cover exactly the elements absent from the other map and those the search passes by |
| `Diffs.KeyIntersect` | src/types/umap.cc:64-74 | the ranges are maximal and cover exactly the elements present in the other map, but for those the search passes by |
| `Diffs.IndexDiff` | src/types/ulist.cc:76-87 | the ranges are maximal and cover exactly the positions at which the lists differ, if and only if no equal pair is misplaced |
| `Diffs.IndexIntersect` | src/types/ulist.cc:89-99 | the ranges are maximal and cover exactly the positions at which the lists agree, if and only if no equal pair is misplaced |
| `Diffs.ShorterIsAligned` | include/node/node_comparator.h:482-502 | no equal pair is misplaced for a list no longer than the other |
| `Diffs.LongerCanBeMisaligned` | include/node/node_comparator.h:491-495 | witness: for a longer list the equal-hash shortcut ignores the start offset and goes wrong |
| `Diffs.OverlooksSmall` | include/node/node_comparator.h:60-63 | an element is passed by only if its key is at most the smallest key and some right entry has such a key |
| `Diffs.SmallestKeyCanBeMissed` | include/node/node_comparator.h:60-63 | witness: with a first right leaf of nothing but the smallest key, the element is passed by though both maps hold it |
| `Diffs.KeyMap` | include/node/node_comparator.h:266-380 | the mapper yields the maps of looking up every element that is not passed by; an empty left tree is the fatal exit |
| `Diffs.KeyMapsCorrect` | include/node/node_comparator.h:266-285 | the reference maps are maximal, increase on both sides and pair exactly the equal elements, but for those left out |
| `Edits.Flip` | include/node/node_merger.h:147-218 | the loop computes the gaps of the maps, from the start to the end of both sides |
| `Edits.FlipTwice` | include/node/node_merger.h:147-218 | flipping twice gives the compaction of the original maps |
| `Edits.FlipPartitions` | include/node/node_merger.h:147-218 | maps and flipped maps partition the indices of both sides |
| `Edits.FlipIsScript` | include/node/node_merger.h:147-218 | for maps of equal elements the flipped maps are an edit script from base to node, with base elements between any two edits |
| `Splices.AdvancedNodeBuilder.constructor` | src/node/node_builder.cc:417-421 | a builder starts with no operands |
| `Splices.AdvancedNodeBuilder.AddSplice` | src/node/node_builder.cc:427-512 | an operand is taken exactly if it starts within the base and overlaps no earlier one; a removal past the end is cut, and an insertion where another is goes behind it |
| `Splices.AdvancedNodeBuilder.Commit` | src/node/node_builder.cc:538-560 | applying the operands one after the other, last first, gives what applying all at once in base coordinates gives |
| `Splices.CommitStep` | src/node/node_builder.cc:544-554 | applying the last operand alone leaves the outcome of the transaction the same |
| `Splices.PlaceDisjoint` | src/node/node_builder.cc:456-500 | an operand taken in keeps the operands sorted and disjoint |
| `Splices.Bounds` | src/node/node_builder.cc:462-500 | the two binary searches meet, or are one apart, exactly if the operand overlaps none |
| `Splices.ScriptReplays` | include/node/node_merger.h:147-218 | replaying an edit script on the base rebuilds the node |
| `Transactions.AfterStep` | src/node/node_builder.cc:544-554 | committing an operand is one edit of the elements that the later operands have left |
| `Transactions.CommitOperand` | src/node/node_builder.cc:547-553 | committing one operand turns the tree over the elements before it into the tree over the elements after it, unless it cuts whole leaves off the end |
| `Transactions.Commit` | src/node/node_builder.cc:538-560 | committing all operands one by one, last first, turns the tree over the base into the tree over the spliced elements, with an empty leaf more exactly if the operand committed at the end cuts whole leaves off |
| `Transactions.OneOperand` | src/node/node_builder.cc:486-495 | on an empty base all operands have been joined to one |
| `Transactions.CommitNew` | src/node/node_builder.cc:517-532 | where there is no tree yet, the transaction builds the tree over its elements |
| `Segments.GetSegmentsFromIndexRange` | include/node/node_merger.h:293-346 | the fatal exit is taken exactly for a range at the very end of the tree; otherwise the segments are the elements of the range, whatever the leaf boundaries |
| `Segments.ReadSegments` | include/node/node_merger.h:304-345 | the loop terminates and reads exactly the elements of the range, leaf by leaf |
| `Sequences.Located` | include/node/cursor.h:55-60 | a cursor at an index stands in the part that holds it, or at the end of the last; what is before and behind it is what is before and behind the index |
| `Merger.IsIdenticalContents` | include/node/node_merger.h:220-291 | as written two ranges count as identical exactly if they have equally many elements, or the fatal exit is taken |
| `Merger.ApplyEdit` | include/node/node_merger.h:490-492 | an edit of a version becomes one more splice of the builder |
| `Merger.MergeRound` | include/node/node_merger.h:381-493 | one round of the loop takes the step of the walk |
| `Merger.MergeEdits` | include/node/node_merger.h:381-493 | the loop yields the splices, the conflict or the fatal exit of the walk over both edit lists |
| `Merger.MapAndFlip` | include/node/node_merger.h:357-370 | mapping and flipping gives the edits of a version, where elements passed by count as removed and added |
| `Merger.Merge` | src/types/server/smap.cc:132-142 | a merge of maps fails if one is empty, and otherwise is the walk over the edits of both versions |
| `Merger.NoneUnseen` | include/node/node_merger.h:357-370 | where the search passes nothing by, the edits are those of the elements |
| `Merger.WalkInOrder` | include/node/node_merger.h:381-493 | the base ranges spliced are sorted, disjoint and within the base |
| `Merger.PlaceLast` | include/node/node_merger.h:490-492 | splices added in order amount to the list of them, even where two insertions join |
| `MergeLaws.WalkOutcome` | include/node/node_merger.h:381-493 | the walk conflicts exactly if two edits clash, and takes the fatal exit exactly if none do and an edit removes the tail of the base |
| `MergeLaws.MergeOutcome` | include/node/node_merger.h:381-493 | a merge fails exactly if two edits overlap in the base without being the same, and takes the fatal exit exactly if none do and a version cuts the tail |
| `MergeLaws.EditsCover` | include/node/node_merger.h:357-370 | the edits cover exactly the elements that do not occur on the other side |
| `MergeLaws.CutsTailMeans` | src/node/map_node.cc:219-227 | a version cuts the tail exactly if its last element occurs in the base before the last one |
| `KeyMerge.TailCutAborts` | src/node/map_node.cc:219-227 | witness: a version without the last element of the base takes the fatal exit |
| `MergeLaws.MergeAsIntended` | include/node/node_merger.h:249-272 | a merge that fails as written fails as intended; one that goes through is the intended one if and only if no two different edits replace the same base range by equally many elements |
| `MergeLaws.WalkAsIntended` | include/node/node_merger.h:104-105 | step by step, the written walk equals the intended one or falls short of it |
| `MergeLaws.MistakenStep` | include/node/node_merger.h:425-443 | where two different edits are taken for one, the intended merge conflicts or inserts both |
| `KeyMerge.MergeByKey` | include/node/node_merger.h:354-497 | for edits that are the same or strictly apart the merge is sorted, and every key takes the first version's change, else the second's, else the base's value |
| `MergeOrder.MergeHolds` | include/node/node_merger.h:381-493 | a merge that goes through as intended holds exactly the base elements both versions keep and the elements either version brings in |
| `MergeOrder.MergeSorted` | include/node/node_merger.h:381-493 | a merge that goes through is in key order if and only if any two different edits of which one follows the other without a gap bring in elements that are in turn |
| `MergeOrder.WalkSorted` | include/node/node_merger.h:381-493 | from any point of the walk on, the splices yield a sorted rest if and only if the edits left are in turn |
| `MergeOrder.Junction` | include/node/node_merger.h:490-492 | what precedes an edit, its content and what follows are in order if and only if the rest is and the content is in turn with the other version's edit that follows without a gap |
| `KeyMerge.MergeThreeWay` | include/node/node_merger.h:354-497 | without mistaken edits, a merge in key order gives every key the first version's change, else the second's, else the base's value |
| `KeyMerge.MergeOneSided` | include/node/node_merger.h:354-497 | merging with an unchanged side yields the other side, and merging a version with itself yields that version |
| `MergeSymmetry.MergeSymmetric` | include/node/node_merger.h:425-463 | swapping the versions never changes whether a merge goes through, and leaves its result the same if and only if edits over the same part of the base bring in the same elements |
| `MergeSymmetry.WalkMirrored` | include/node/node_merger.h:381-493 | the two walks yield the same from any point on if and only if the edits left agree |
| `MergeSymmetry.OrderMatters` | src/node/node_builder.cc:486-495 | two different insertions at one place never commute |
| `KeyMerge.ConflictCanPass` | include/node/node_merger.h:249-251 | witness: both versions replace one element differently, and the merge keeps the first without a conflict |
| `KeyMerge.TouchingAppends` | src/node/node_builder.cc:486-495 | two insertions of different lengths at one place are both applied, the first version's first; the result is in key order if and only if they happen to be |
| `KeyMerge.TouchingReplacements` | include/node/node_merger.h:381-493 | witness: replacements of two neighbours are both applied; the result is in key order if and only if the new keys are |
| `RollingHash.DigestAppend` | include/hash/buzhash.h:80-89 | taking in a byte rotates the digest and adds the byte's word |
| `RollingHash.DigestSlide` | include/hash/buzhash.h:80-89 | taking in a byte and taking out the oldest one gives the digest of the window moved on |
| `RollingHash.BuzHash.constructor` | include/hash/buzhash.h:58-64 | a fresh hash is that of no bytes |
| `RollingHash.BuzHash.Reset` | include/hash/buzhash.h:67-71 | after a reset the hash is that of no bytes |
| `RollingHash.BuzHash.Store` | include/hash/buzhash.h:76-87 | the circular buffer holds the last n bytes, and gives up the oldest one once it is full |
| `RollingHash.BuzHash.HashByte` | include/hash/buzhash.h:75-91 | after any bytes the state is the exclusive or of the words of the last n bytes, each rotated by its age |
| `Words.RotateByShifts` | include/hash/buzhash.h:58-61 | the two shifts are a rotation by the window size, for every size |
| `Words.Uint32Lawful` | include/hash/buzhash.h:80-88 | the shifts and exclusive ors of 32-bit words obey the laws a rolling hash needs |
| `RollingHash.CrossedMeans` | include/node/rolling_hash.h:38-45 | a boundary has been crossed exactly if some prefix of the bytes since the last cut ends in a full window that matches the pattern, or has the maximal size |
| `RollingHash.CrossedStep` | include/node/rolling_hash.h:41-44 | the update of the sticky flag is right whatever was hashed before the last cut |
| `RollingHash.RollingHasher.constructor` | src/node/rolling_hash.cc:11-16 | a fresh hasher has taken in no bytes |
| `RollingHash.RollingHasher.Roll` | include/node/rolling_hash.h:40-43 | the pattern is matched against the hash of the last window |
| `RollingHash.RollingHasher.UpdateFlag` | include/node/rolling_hash.h:39-44 | count and flag are those of the bytes since the last cut |
| `RollingHash.RollingHasher.HashByte` | include/node/rolling_hash.h:38-45 | the flag depends only on the bytes since the last cut |
| `RollingHash.RollingHasher.HashBytes` | src/node/rolling_hash.cc:18-22 | hashing bytes is hashing them one by one |
| `RollingHash.RollingHasher.TryHashBytes` | src/node/rolling_hash.cc:24-30 | stops at the first byte that completes a boundary, and takes in all bytes if none does |
| `RollingHash.RollingHasher.ClearLastBoundary` | include/node/rolling_hash.h:49-52 | from any state, the hasher is then one that has taken in no bytes |
| `RollingHash.RollingHasher.ResetBoundary` | include/node/rolling_hash.h:53-53 | the flag is cleared, the bytes stay counted |
| `Chunking.ChunksAfter` | include/node/rolling_hash.h:38-52 | after any sequence of cut chunks the rest is cut as from nothing: chunking forgets history |
| `Chunking.ChunksCons` | src/node/node_builder.cc:263-296 | the first cut chunk of a sequence can be cut off, and the rest is chunked alone |
| `Chunking.ChunksConcat` | src/node/node_builder.cc:263-296 | chunks put together are the entries |
| `Chunking.ChunksTail` | src/node/node_builder.cc:263-296 | the chunks from some cut on are the chunks of the entries from there on |
| `Chunking.ChunksCut` | src/node/node_builder.cc:269-278 | every chunk but the last ends in a boundary |
| `Chunking.ChunksOpen` | src/node/node_builder.cc:373-382 | entries with no boundary make one chunk |
| `Chunking.SharedTail` | include/node/rolling_hash.h:38-52 | two sequences that share their entries from a cut on chunk them alike |
| `Builder.PosToIdxHolds` | src/chunk/segment.cc:78-83 | the entry found holds the byte at the position |
| `Builder.CutAt` | src/node/node_builder.cc:266-273 | the entries up to the one with the first boundary are a cut chunk |
| `Builder.NewHasher` | src/node/rolling_hash.cc:11-16 | the hasher of a chunker starts with no bytes |
| `Builder.ChunkSegment` | src/node/node_builder.cc:263-296 | a segment is cut after every entry that holds a boundary; the chunks are the first ones of the whole sequence, whatever follows |
| `Builder.ChunkSegments` | src/node/node_builder.cc:252-296 | the appended segments are cut as one sequence |
| `Builder.SkipEntries` | src/node/node_builder.cc:106-149 | the cursor moves on by the entries removed, and the parent's cursor past every chunk left behind |
| `Builder.ChunkNodes` | src/node/node_builder.cc:313-370 | old chunks are added until a boundary meets the end of one, where the old chunks take over |
| `Builder.ChunkRest` | src/node/node_builder.cc:302-371 | the old entries from the cursor on are cut until they agree with the old chunks again |
| `Builder.RebuildLevel` | src/node/node_builder.cc:228-391 | replacing only the chunks around an edit gives the level of the edited entries, with one empty chunk too many exactly if whole chunks were removed from the end and nothing was added |
| `Builder.BuildLevel` | src/node/node_builder.cc:252-391 | building from nothing gives the level of the entries |
| `PosTree.Prune` | src/node/node_builder.cc:217-222 | the loop descends to the first node that has not just one child |
| `PosTree.PrunedIsRoot` | src/node/node_builder.cc:207-226 | pruning a single chunk of any level finds the tree |
| `PosTree.RootUnique` | src/node/node_builder.cc:396-400 | there is at most one tree over a level |
| `PosTree.ReplacedMetas` | src/node/node_builder.cc:193-205 | replacing chunks of a level is an edit of the entries above |
| `PosTree.CommitLeaves` | src/node/node_builder.cc:228-391 | committing the leaf level gives the leaves of the edited elements |
| `PosTree.CommitAbove` | src/node/node_builder.cc:392-400 | committing a level above gives the level over the new chunks below |
| `PosTree.LevelsFound` | src/node/cursor.cc:80-119 | the levels of a tree are found from its root down |
| `PosTree.RootExists` | src/node/node_builder.cc:396-400 | there is a tree exactly if some level has a single chunk |
| `PosTree.ChunksHalve` | include/node/rolling_hash.h:41-44 | if no meta entry holds a boundary by itself, a level has at most half as many chunks as entries, rounded up |
| `PosTree.HalvingRoots` | src/node/node_builder.cc:396-400 | if no meta entry holds a boundary by itself, there is a tree over any leaves |
| `PosTree.ShortNotAlone` | include/node/rolling_hash.h:41-42 | entries shorter than the window hold no boundary by themselves |
| `PosTree.AllAlone` | src/node/node_builder.cc:396-400 | if every meta entry holds a boundary by itself, there is a tree over a single leaf only |
| `PosTree.LevelsCanStay` | include/node/rolling_hash.h:41-44 | witness: so it is for entries that fill a window if every window matches, and for entries of the maximal size |
| `PosTree.Grow` | src/node/node_builder.cc:392-400 | levels above the old root are added until one has a single chunk, which they reach exactly if there is a tree |
| `PosTree.Build` | src/node/node_builder.cc:252-400 | a tree built from nothing is the tree over its elements |
| `PosTree.CommitLevels` | src/node/node_builder.cc:392-400 | committing all levels of the old tree gives the level of the new leaves at that height |
| `PosTree.Commit` | src/node/node_builder.cc:207-226 | an edit of the tree over some elements gives the tree over the edited leaves, which is the tree over the edited elements unless whole leaves were cut off the end |
| `PosTree.CommitIsBuild` | src/node/node_builder.cc:384-391 | the committed tree equals the tree built from the edited elements if and only if no whole leaves were cut off the end with nothing added |
| `PosTree.LastLeafRemoved` | src/node/node_builder.cc:384-391 | witness: of two leaves the last is removed, and an empty leaf takes its place |
| `PosTree.RootLeaves` | src/node/node_builder.cc:228-400 | a tree has as many leaves as it was built over |
| `BlockingQueue.RunsAreSafe` | include/utils/blocking_queue.h:20-45 | in every run of any number of threads the mutex excludes, the capacity holds, items leave in the order they came, and no wake-up is lost |
| `BlockingQueue.ExclusiveKept` | include/utils/blocking_queue.h:20-45 | every step keeps the mutex with the one thread that holds it |
| `BlockingQueue.FifoKept` | include/utils/blocking_queue.h:23-42 | every step keeps capacity and order |
| `BlockingQueue.NoneLostKept` | include/utils/blocking_queue.h:23-43 | while a consumer sleeps, queued items never outnumber notifications to come and woken consumers; the mirror holds for producers |
| `BlockingQueue.NotifyKept` | include/utils/blocking_queue.h:26-43 | a notification wakes one sleeper, or none sleeps |
| `BlockingQueue.NoDeadlock` | include/utils/blocking_queue.h:20-45 | when all calls sleep, consumers face an empty queue and producers a full one, never both |
| `BlockingQueue.Progress` | include/utils/blocking_queue.h:20-45 | as long as a call does not sleep, some thread inside a call can go on |
| `SyncTaskLine.RunsAreSafe` | include/utils/sync_task_line.h:34-77 | in every interleaving the k-th Sync returns what consuming the k-th item gave, at most one item is under way, no wake-up is lost, and the worker ends with the first terminating item |
| `SyncTaskLine.OneByOneKept` | include/utils/sync_task_line.h:34-77 | every step keeps at most one item under way, with the flag telling whether it is done |
| `SyncTaskLine.AnsweredKept` | include/utils/sync_task_line.h:44-48 | every step keeps the results those of the items produced |
| `SyncTaskLine.RestKept` | include/utils/sync_task_line.h:65-77 | every step keeps exclusion, wake-ups and termination |
| `SyncTaskLine.NeverStranded` | include/utils/sync_task_line.h:44-76 | a producer asleep in Sync is never stranded, unless an earlier item terminated the worker |
| `ClientProtocol.RunsKeep` | src/cluster/client.cc:11-34 | in every run, with any clients and receive threads, every response under way is awaited, none is lost, and no wake-up is lost |
| `ClientProtocol.OwnResponses` | src/cluster/client.cc:11-34 | a client's i-th wait returns the response to its own i-th request, and no response is handed out twice |
| `ClientProtocol.NeverStranded` | src/cluster/client.cc:11-19 | a client asleep is never stranded: its mutex holder or a receive thread can go on |
| `ClientProtocol.BusyGoesOn` | src/cluster/client_service.cc:19-34 | a busy receive thread can go on, or the holder of the mutex it waits for can |
| `ClientProtocol.ClientStepKept` | src/cluster/client.cc:11-34 | every step of Send and Wait keeps the invariant |
| `ClientProtocol.ReceiverStepKept` | src/cluster/client_service.cc:30-34 | setting the response, notifying and releasing keep the invariant |
| `ClientProtocol.DeliverKept` | src/cluster/client_service.cc:19-28 | taking a response from the network keeps the invariant |
| `ClientProtocol.RegisterKept` | src/cluster/client_service.cc:36-48 | a new client, whatever its flag holds, keeps the invariant |
| `ClientProtocol.WakeUpKept` | src/cluster/client.cc:14-15 | a spurious wake-up keeps the invariant |
| `ClientProtocol.ClientService.CreateResponseBlob` | src/cluster/client_service.cc:36-48 | the new blob gets its place as id and the link to the network; all blobs are distinct and carry their places |
| `Iterators.CursorIterator.constructor` | include/types/uiterator.h:58-70 | the iterator starts at the first element of its ranges |
| `Iterators.CursorIterator.Next` | src/types/uiterator.cc:7-53 | one place on, not beyond the end; index and node cursor stay together across ranges |
| `Iterators.CursorIterator.Previous` | src/types/uiterator.cc:55-98 | one place back, not before the head; index and node cursor stay together across ranges |
| `Iterators.CursorIterator.PosBounds` | include/types/uiterator.h:82-90 | head, end and index are those of the place among all elements of the ranges |
| `Iterators.CursorIterator.Key` | include/types/uiterator.h:93-96 | the key is the one at the place |
| `Iterators.UnionHolds` | include/types/uiterator.h:130-131 | the union of two key sequences holds exactly the keys of both |
| `Iterators.UnionIncreasing` | include/types/uiterator.h:130-131 | the union of two increasing key sequences is increasing |
| `Iterators.StepsForward` | include/types/uiterator.h:286-304 | moving the sides the flag names is one place on in the union |
| `Iterators.StepsBackward` | include/types/uiterator.h:349-367 | moving the sides the flag names is one place back in the union |
| `Iterators.TurnsForward` | include/types/uiterator.h:259-284 | on a change of direction the other side steps over the gap, forward |
| `Iterators.TurnsBackward` | include/types/uiterator.h:318-345 | on a change of direction the other side steps over the gap, backward |
| `Iterators.DuallyDiffIterator.constructor` | include/types/uiterator.h:135-144 | from two iterators at the head, the iterator starts at the first key of the union |
| `Iterators.DuallyDiffIterator.UpdateFlag` | include/types/uiterator.h:370-400 | the flag says which sides hold the current key, for the direction of travel |
| `Iterators.DuallyDiffIterator.Next` | include/types/uiterator.h:248-305 | one place on in the union of both key sequences, after any earlier calls, and not beyond the end |
| `Iterators.DuallyDiffIterator.Previous` | include/types/uiterator.h:307-368 | one place back in the union, after any earlier calls, and not before the head |
| `Iterators.DuallyDiffIterator.Key` | include/types/uiterator.h:162-195 | the key at the current place of the union |
| `Iterators.DuallyDiffIterator.LhsValue` | include/types/uiterator.h:228-236 | the left value under the current key, or nothing if the left side lacks it |
| `Iterators.DuallyDiffIterator.RhsValue` | include/types/uiterator.h:238-246 | the right value under the current key, or nothing if the right side lacks it |
| `MapDiff.DuallyDiff` | src/types/umap.cc:14-26 | the iterator runs in order over exactly the keys under which two maps differ and those a comparison passes by |
| `MapDiff.DiffKeys` | src/types/umap.cc:50-62 | a key is among those of the diff exactly if its element is missing or different on the other side, or passed by |
| `Sha256.HashBlock` | include/hash/sha2.h:87-134 | the loops compute the compression of section 6.2.2 of FIPS 180-4 |
| `Sha256.Expand` | include/hash/sha2.h:89-100 | the message schedule of section 6.2.2 of FIPS 180-4 |
| `Sha256.RunRounds` | include/hash/sha2.h:102-122 | the 64 rounds of section 6.2.2 of FIPS 180-4 |
| `Sha256.LoadWords` | include/hash/sha2.h:91-96 | a block is read as sixteen big-endian words |
| `Sha256.CompressConcat` | include/hash/sha2.h:192-194 | compressing whole blocks can be split anywhere between them |
| `Sha256.AddToDataLength` | include/hash/sha2.h:228-240 | the digits grow by what is added to the lowest one in 32 bits, modulo 2^64 |
| `Sha256.LengthExact` | include/hash/sha2.h:230-230 | a piece is counted right if and only if the lowest digit does not overflow 32 bits |
| `Sha256.LengthLost` | include/hash/sha2.h:230-230 | witness: 2^32 bytes added to the digits of zero count for none |
| `Sha256.BitLength` | include/hash/sha2.h:246-254 | the digits are multiplied by eight |
| `Sha256.EightfoldValue` | include/hash/sha2.h:246-254 | the digits shifted with carry encode eight times the value, modulo 2^64 |
| `Sha256.WriteDataBitLength` | include/hash/sha2.h:241-261 | the field is eight times the value of the digits modulo 2^64, most significant byte first |
| `Sha256.DigitsBigEndian` | include/hash/sha2.h:256-260 | two bytes for each digit, highest first, are the big-endian bytes of the value |
| `Sha256.PaddingFills` | include/hash/sha2.h:198-215 | message and padding of section 5.1.1 of FIPS 180-4 make whole blocks, with the fewest zeros |
| `Sha256.PaddingSplits` | include/hash/sha2.h:203-214 | the rest of a message with its padding makes one block or two, as the code fills them |
| `Sha256.CompressPadded` | include/hash/sha2.h:199-214 | the last one or two blocks are those of the padded message |
| `Sha256.Hasher.constructor` | include/hash/sha2.h:178-185 | a fresh hasher has taken in no bytes |
| `Sha256.Hasher.Init` | include/hash/sha2.h:180-185 | an initialised hasher has taken in no bytes |
| `Sha256.Hasher.CompressBuffer` | include/hash/sha2.h:191-195 | whole blocks are compressed in order and the rest kept |
| `Sha256.Hasher.Process` | include/hash/sha2.h:187-196 | the state is that of the message so far; the digits fall short by 2^32 as often as the piece and the lowest digit of the length before it make up 2^32 |
| `Sha256.Hasher.Finish` | include/hash/sha2.h:198-215 | the digest is that of the message padded with the counted length |
| `Sha256.LostNone` | include/hash/sha2.h:228-240 | nothing is lost if and only if no piece, added to the lowest digit of the length before it, comes to 2^32 |
| `Sha256.BitsExact` | include/hash/sha2.h:228-261 | below 2^64 bits the length in the padding is right if and only if every piece fits |
| `Sha256.LongPiece` | include/hash/sha2.h:228-240 | witness: the length of a piece of 2^32 bytes is taken for zero |
| `Sha256.HashPieces` | include/hash/sha2.h:176-225 | however a message is split, the bytes are those of the digest of the message padded with the counted length, and of SHA-256 of the whole if every piece fits |
| `Sha256.GetHashBytes` | include/hash/sha2.h:217-225 | the digest is written out word by word, most significant byte first |

## Left out

- Levenshtein mapping and the merge of lists by minimal edit distance.
- The bodies of the node cursor: its moves are those its header promises.
- Node encodings, chunk stores, chunk loaders and writers, and the caching of intermediate
  chunks during a commit.
- The checks of the chunkers on the keys of a node, and so the stop they make for keys out of
  order within a leaf.
- Head-version tables, workers, logs, the partitioner, networking, message parsing, the command
  line and configuration: they would add only easy members or rest on foreign code.
- Memory: who frees a message or a segment.
- Wrap-around of 64-bit counts and indices.
- Hash collisions.
- Merger.Merge: says what is merged where the search passes elements by, in terms of the edits it
  then sees; the laws of `MergeLaws`, `MergeOrder` and `MergeSymmetry` are about the edits of the
  elements, which are the same unless it does (`NoneUnseen`).
- Splices.AdvancedNodeBuilder.Commit: works on the elements; the trees that the commits yield are
  carried through in `Transactions.Commit`.
- Transactions.Commit: does not say what happens after an operand other than the one committed
  last has left an empty leaf at the end: the moves of a cursor take leaves to hold elements
  (src/node/cursor.cc:197-203).
- Builder.ChunkNodes: the source cuts the rest of the first node and the later nodes in one loop;
  here the first node is `ChunkRest`, the later ones are the loop.
- Builder.SkipEntries: the parent's builder is the index of its cursor, which is skipped on as
  the source does.
- PosTree.Grow: is stated where some level has a single chunk, without which the source goes on
  for ever; `HalvingRoots` and `AllAlone` say when that is.
- PosTree.Build: is stated under the same condition.
- PosTree.Commit: is stated under the same condition, and for a tree over some elements: one that
  an earlier commit has left with an empty last leaf is not one.
- RollingHash.BuzHash.constructor: needs a window of at least one byte; with none, the source
  stores every byte outside its buffer of no bytes. A rotation by a multiple of 32 is the
  identity; the shift by 32 that the source writes then has no defined value.
- SyncTaskLine.RunsAreSafe: putting into and taking from the queue are single steps; the queue
  itself is `BlockingQueue`.
- ClientProtocol.RunsKeep: network failures, timeouts and unanswered requests are not modelled.
- ClientProtocol.ClientService.CreateResponseBlob: runs as one step, as the lock it holds makes it.
- BlockingQueue.Progress: says that work can go on, not that the scheduler lets it.
- Sha256.Hasher.CompressBuffer: applies the compression as a function of digest and block, the one
  `HashBlock` computes in place.
- Sha256.BitLength: where the source joins a shifted digit and a carry bit by bit, the model adds
  them; the low three bits of the one are zero and the other has no more than three.
