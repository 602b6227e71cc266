# Verified model of the search engine's index storage

This project models three connected pieces of the DataparkSearch index storage and proves what each
is for. To check it: `dafny verify dfyconfig.toml`.

1. **The carryover-12 codec** (`src/carry.c`, `include/dps_carry.h`) turns an increasing id list into
   gaps and packs them into 32-bit words without marking word ends or selector positions.
   `Bits` and `CarryWords` hold the word packing, `CarryCode` the tables, the encoder and the decoder
   as functions, `CarryLockstep` the proof that the decoder follows the encoder bit by bit,
   `CarryProgress` the exact condition under which the encoder finishes, `CarryFormat` the file format
   spelled out, with three small files in full, and `CarryCoder` the loops over arrays and buffers,
   each proved to compute those functions.
2. **The record base** (`src/base.c`): 4093 hash slots, overflow chains, a data file of extents.
   `BaseIndex` is the index file, `BaseChains` its chains as lists, `BaseStore` reads, writes and
   deletes, `BaseReads` what they do to every read in every reachable state, `BaseOptimize`
   compaction and `BaseSurvivors` which records it keeps, `BaseRuns` whole runs against a map,
   `BaseDeleted` when a deleted id stays deleted, `BaseLosses` three runs that go wrong, `BaseFiles` several numbered files side by side, `BaseFile`
   the class that works on the two files in place.
3. **The write-behind inverted index** (`src/cache.c`): buffered words and deletes per shard, flushed
   into posting lists. `LogClean` says what the passes mean, `LogPasses` are the two-pointer loops,
   `LogFlush` and `LogProcess` bring a log into the lists, `WriteBehind` is one shard, `WriteRuns`
   whole runs against the index that applies each command at once, `CacheBuffers` the buffers in
   memory; `WriteLosses` holds two runs that differ from that index. `SearchWalk`, `SearchLimits` and
   `SearchAnswer` are the reading side.

`Sorting` stands for `DpsSort`: an ordered permutation under the comparator. The lists a flush
leaves do not depend on the order `DpsSort` gives to entries that compare equal, as long as the tail
of the log moves by whole records or does not move, or no two pending words compare equal
(`WriteBehind.AnySortWillDo`; `WriteLosses.SortOrderMatters` shows that some such condition is
needed). `FileNumber` is the file, or shard, that a key belongs to.

Each imperative method is proved equal to a function of its inputs; the functions carry the theorems.
Where a theorem speaks through a function, a lemma beside it says in numbers and fields what the function
means (`CarryLockstep.SelectTakesLeast`, `WriteBehind.FlushedListHolds`, `SearchWalk.FilteredKeeps`, ...).

## What turned out false, and exactly when it holds

- A carryover file whose list length is a multiple of 16384 (the empty list included) cannot be
  decoded: the decoder stops only at a short block (`CarryLockstep.RoundTrip`).
- Row 28 of the two "small" tables is all zero, so the encoder never finishes a block of 16-bit gaps
  that starts at width 28, except one made of ones that fits the current word's field array.
  `CarryProgress.CodecExact` is the complete condition, `CarryProgress.DeadIdsFail` a valid list of
  16385 ids on which the encoder loops forever.
- Deleting the head record of a chain hides the records behind it, and writing any id to the freed
  slot brings them back. `BaseReads.WriteIsMapUpdate` and `BaseReads.DeleteExact` say in every
  reachable state which other reads change. A run of operations behaves as a map at every point if
  and only if no delete of it hides a record (`BaseRuns.RunIsMapExactly`).
- In every reachable state, a deleted id stays deleted, whatever follows short of writing it again, if
  and only if it had no live item but the one the search found (`BaseDeleted.DeletedForGood`). Any other
  live item of the id, be it hidden, a second copy in its chain, or cut off its chain by a compaction,
  can be made to come back. `BaseLosses.DeletedRecordReturns` is a run in which a second copy does. In a
  valid state the condition is that the id was not hidden (`BaseDeleted.DeleteRemovesExactly`).
- Rewriting a hidden record stores a second one of its id. The states of a run all keep ids distinct
  if and only if it never does that (`BaseRuns.RunIsValidExactly`).
- Compaction keeps a record only if it is smaller than all live data, so a single live record is
  lost (`BaseLosses.LoneRecordLost` is a run that loses one); and storing a second record of an id
  cuts off what was chained behind the first. A live non-empty record survives, in every reachable state, if and only if it is not alone and no later
  record in offset order repeats its id or an id ahead of it in its chain
  (`BaseSurvivors.SurvivesExactly`). `BaseLosses.CompactionLosesARecord` is a run that loses one of
  three live records. Only ids stored twice can do that: with distinct ids nothing is cut off.
- The tail move of `DpsRemoveOldWords` counts 8 bytes for each 24-byte record (`src/cache.c:965`).
  The model has both the move as written and a move of whole records (`LogClean.TailMove`);
  `LogClean.ByteMoveExact` says exactly when the written one is right, and the results about runs hold
  for whole records, or for a shard in which no flush had a tail to move (`intact`).
  `WriteLosses.LostTail` is a run of three commands and a flush in which the written move loses a
  posting of another document.
- Two commands for one document under one stamp leave the first one's words in place
  (`WriteLosses.SameStampKeepsOldWords`; `WriteBehind.BufferedDeleteExact` and
  `WriteBehind.BufferedWordExact` are the exact conditions for each buffered entry), because the keep
  test of `DpsRemoveOldWords` is `>=`. The comment above that function says only newer pairs remain, and the comment in `DpsLogdSaveBuf` says
  the oldest delete of each url is kept; the code keeps equal stamps and the newest delete, and the
  model follows the code.
- A time limit over an index with a single entry refuses that entry unless its key is the upper
  bound itself (`SearchLimits.LoneIsRefused`).

## Model

| member | source | states |
|---|---|---|
| CarryWords.ShiftOrIsPack | include/dps_carry.h:71-88 | the shift-and-or loop over the collected fields builds the sum of each value at its own bit position, below 2^32, whenever the fields fit 32 bits |
| CarryWords.ReadsBack | include/dps_carry.h:90-157 | reading as many bits as the last field put gives that field, and leaves the reader at the writer's bit, whether or not a new word was opened |
| CarryLockstep.QCeilLog2IsCeilLog | include/dps_carry.h:223-231 | the table look-up is the rounded-up base-2 logarithm for every value a 32-bit gap can take |
| CarryLockstep.FailureIsMonotonic | src/carry.c:87-108 | a width that codes no group in few bits codes none in more bits |
| CarryLockstep.FirstFitRestart | src/carry.c:400-411 | the restart with a fresh word's 32 bits can only pick a width that did not fit before: the pick codes what it would code in the group's true bits |
| CarryLockstep.SelectFillsGroup | src/carry.c:393-417 | the chosen group fits the bits it has and fills them unless it ends the block, which is what lets the decoder find the next selector |
| CarryLockstep.SelectTakesLeast | src/carry.c:398-411 | the column taken is the least one of the previous width's row that codes a gap, in the bits left after the selector or, if its width exceeds them, in a fresh word; the search fails only when no column does |
| CarryLockstep.SelectorLockstep | include/dps_carry.h:361-381 | the decoder finds the selector the encoder put and fetches a word exactly when the encoder opens one for the group's first gap |
| CarryLockstep.GapsLockstep | include/dps_carry.h:383-392 | over the k gaps of a group the decoder never leaves the group: same gaps, same remaining bits, same width |
| CarryLockstep.GroupLockstep | src/carry.c:393-417 | the decoder's next k gaps are the group's and it ends at the encoder's bit with the encoder's width |
| CarryLockstep.HeaderLockstep | include/dps_carry.h:314-355 | the block header read back is the count and the table class written |
| CarryLockstep.BlockLockstep | src/carry.c:126-139 | decoding a block yields its gaps and stops at the encoder's bit with the encoder's width |
| CarryLockstep.SumsOfGaps | src/carry.c:260-271 | running sums of the gaps of an increasing list are the list |
| CarryLockstep.PaddingNeverEnds | src/carry.c:126-139 | once only zero padding is left every header reads as a full block, until the words run out |
| CarryLockstep.RoundTrip | src/carry.c:382-418 | a list the encoder finishes decodes to itself if its length is not a multiple of 16384, over any number of blocks, and otherwise the decoder runs off the file |
| CarryProgress.LiveRow | include/dps_carry.h:244-288 | every table row reachable from the starter, but row 28 of the small tables, ends in the class's top width and leads only to such rows |
| CarryProgress.PutSucceeds | include/dps_carry.h:90-100 | outside zero-width runs no word gets more than 32 fields |
| CarryProgress.GroupSucceeds | src/carry.c:393-417 | from a live row the column search ends with a column that codes at least one gap |
| CarryProgress.BlockSucceeds | src/carry.c:385-418 | a block within range that does not start at a dead row is coded, and the next state is healthy again |
| CarryProgress.DeadBlock | include/dps_carry.h:272-288 | at a dead row a block is coded if and only if it is made of ones and fits the field array |
| CarryProgress.BlocksDoneIffCodable | src/carry.c:382-418 | the encoder finishes if and only if every gap is within range and every dead start is a fitting block of ones |
| CarryProgress.CodecExact | src/carry.c:353-418 | encoding then decoding gives the list back if and only if the length is not a multiple of 16384 and the gaps are codable |
| CarryProgress.AscendingRoundTrip | src/carry.c:382-418 | every list of one block in range, and every list whose blocks never go from wide gaps to 16-bit gaps, survives the round trip |
| CarryProgress.WideThenNarrowFails | include/dps_carry.h:272-288 | at any block boundary, a block that ends in a gap above 2^16 followed by a block of 16-bit gaps that is more than a few ones is never coded |
| CarryProgress.DeadIdsFail | include/dps_carry.h:272-288 | a concrete valid list of 16385 ids that the encoder never finishes |
| CarryFormat.Big30IsStored | include/dps_carry.h:254-261 | the big table for a selector that opens a word, width by width as the array holds it |
| CarryFormat.Big32IsStored | include/dps_carry.h:263-270 | the big table for a selector inside a word |
| CarryFormat.Small30IsStored | include/dps_carry.h:272-279 | the small table for a selector that opens a word |
| CarryFormat.Small32IsStored | include/dps_carry.h:281-288 | the small table for a selector inside a word |
| CarryFormat.GroupIsFull | src/carry.c:91-99 | a group of positive width holds as many gaps as fit its bits and are left in the block, and none if one of those is too wide |
| CarryFormat.ZeroGroupIsRun | src/carry.c:100-108 | a group of width zero is a run of 2 to 64 gaps of one, as long as there is |
| CarryFormat.PutFillsWords | include/dps_carry.h:90-100 | a field goes into the current word while 32 bits hold it, and opens a new word otherwise |
| CarryFormat.FirstWordIsHeader | include/dps_carry.h:314-330 | the first word of any file, in numbers: lowest bit set and fourteen bits of length for a short list, clear for a long one, and above that the table class of the first block |
| CarryFormat.HeaderRead | include/dps_carry.h:340-355 | what the reader makes of the first word of any file, in numbers |
| CarryFormat.SelectorReadInWord | include/dps_carry.h:361-372 | a selector with two bits left in the word: the column they name, the rest of the word, and the next word when the new width does not fit the rest |
| CarryFormat.SelectorReadInNext | include/dps_carry.h:373-381 | otherwise it is the lowest two bits of the next word, whose other thirty are data |
| CarryFormat.GapRead | include/dps_carry.h:383-394 | a gap is the value of the width's lowest bits plus one, and the rest of the word stays |
| CarryFormat.SumsStep | src/carry.c:264-270 | each gap is added to the sum before it modulo 2^32 |
| CarryFormat.OneWordFile | src/carry.c:353-418 | the file of the ids 2, 5, 9, in full |
| CarryFormat.WideFile | src/carry.c:353-418 | the file of the id 70000, in full: big tables, selector 3, and a word of its own for the gap |
| CarryFormat.FullWordFile | src/carry.c:353-418 | the file of the ids 40000, 80000, 80003, 80006, in full: a word filled to its last bit, and the next selector at the start of a word |
| CarryCoder.CeilLog2 | include/dps_carry.h:213-221 | the shift loop computes the rounded-up logarithm, which is also what the table form gives |
| CarryCoder.ElemsCoded | src/carry.c:87-108 | the scan returns the group size of the specification, for both zero and positive widths |
| CarryCoder.CalcMinBits | src/carry.c:51-83 | fills in the width of every gap and returns the largest |
| CarryCoder.PickColumn | src/carry.c:398-411 | the loop that restarts in place with 32 bits makes the specification's first-fit choice |
| CarryCoder.CarryLimitWrite | src/carry.c:353-418 | the block loop over arrays and the in-place field buffer writes exactly the words of the specification, or fails as it does |
| CarryCoder.CarryDecodeFile | src/carry.c:111-146 | the reading loop over the word buffer returns exactly the ids of the specification, or fails as it does |
| CarryCoder.GetSelector | include/dps_carry.h:361-381 | the selector step on the buffered reader moves the state as specified |
| CarryCoder.WordWriter.Put | include/dps_carry.h:90-100 | the in-place field buffer represents the abstract writer after the put |
| CarryCoder.WordReader.Read | include/dps_carry.h:129-157 | the refilled word buffer represents the abstract reader after the read |
| CarryCoder.WriteDocGaps | src/carry.c:260-271 | replaces gaps by running sums in place and carries the last one over |
| BaseIndex.FindsLive | src/base.c:407-480 | the search finds every live record whose head slot is live |
| BaseIndex.HashOfLowHalf | include/dps_base.h:28 | the head slot of a key is the remainder of its low half by 4093 |
| FileNumber.FileOfHighHalf | include/dps_base.h:29 | the file, or shard, of a key is the remainder of its high half by the number of files |
| BaseIndex.DeadHeadHides | src/base.c:424-430 | behind a free head slot nothing is found |
| BaseIndex.FindStaysInBucket | src/base.c:407-480 | the search ends inside the index, at an item of the id's own bucket |
| BaseIndex.StoreChangesOneSlot | src/base.c:562-630 | storing an item writes one slot and changes no other item but a link |
| BaseIndex.StoreKeepsSearchable | src/base.c:562-630 | storing keeps links forward and unshared and buckets right, keeps ids distinct if and only if the id was not hidden, and hides no record |
| BaseChains.FindIsFirst | src/base.c:407-480 | in any index the search ends at the first item of the id in the chain of a taken head, and finds nothing else |
| BaseChains.StoreOnChains | src/base.c:562-630 | in any index, storing replaces the first item of the id in its own chain, or takes a free head, a free last slot or a new last one; other chains stay |
| BaseChains.RemoveOnChains | src/base.c:486-516 | in any index, deleting frees the first item of the id in its own chain, if the head is taken; other chains stay |
| BaseStore.LookupIsLiveRecord | src/base.c:648-718 | in a valid state a read succeeds exactly for live records whose head slot is live, and then gives the record's bytes |
| BaseStore.WriteKeepsExtents | src/base.c:562-630 | in every state, writing keeps extents inside the file and disjoint, and moves or changes no other live record's bytes |
| BaseReads.ReadsAfterWrite | src/base.c:519-645 | in every reachable state, after a write the id reads what was written, an id of the same bucket reads the first record of it in the chain, hidden before or not, and any other id reads as before |
| BaseReads.WriteIsMapUpdate | src/base.c:519-645 | in every reachable state the id reads back what was written, and all other ids read as before if and only if its head slot is taken or no other id's record is chained behind it |
| BaseReads.WriteUsesOldSpace | src/base.c:562-620 | a record found and not smaller than the new one is overwritten where it is; any other write appends its bytes and keeps all others |
| BaseReads.ReadsAfterDelete | src/base.c:486-516 | in every reachable state, after a delete another id reads nothing if it shares the bucket of the deleted head record, and as before otherwise |
| BaseReads.DeleteExact | src/base.c:486-516 | in every reachable state the deleted id is gone unless a second record of it is chained behind another id's head, and all other reads stay if and only if the delete hides no record; otherwise its whole bucket is not found |
| BaseReads.WriteKeepsValid | src/base.c:562-630 | a write keeps ids distinct and all items linked if and only if its id is not hidden |
| BaseReads.DeleteKeepsValid | src/base.c:486-516 | a delete keeps a valid state valid, the id is gone, and a head-ok state stays head-ok if and only if it hides no record |
| BaseStore.DeleteKeepsInvariant | src/base.c:486-516 | delete keeps index shape and extents, creates no live item and changes none |
| BaseOptimize.PackedRecord | src/base.c:1069-1116 | packed record i starts at the sum of the sizes before it and its extent in the packed file is its old extent |
| BaseOptimize.RebuildHolds | src/base.c:1142-1218 | the rebuilt index holds exactly the given records, once each, with all links right |
| BaseOptimize.OptimizeExtents | src/base.c:1117-1123 | after compaction the extents are disjoint and inside a data file as long as their total |
| BaseOptimize.KeptUnlessAlone | src/base.c:1008-1014 | the size filter keeps a live non-empty record exactly when there is another one |
| BaseSurvivors.RebuildStacks | src/base.c:1160-1218 | storing the records one after the other builds each chain by appending, cutting it at an item whose id is repeated |
| BaseSurvivors.FoundAgainExact | src/base.c:1160-1218 | in every reachable state, a search of the compacted store ends at the i-th kept record, moved, if and only if no later record repeats its id or an id stored ahead of it in its chain; then it reads its bytes |
| BaseSurvivors.GoneExact | src/base.c:989-1226 | in every reachable state an id is not found after compaction if and only if each kept record of it was cut off |
| BaseSurvivors.SurvivesExactly | src/base.c:1008-1218 | in every reachable state a live non-empty record survives if and only if it is not the only one and is not cut off; the only one is not found any more; in a valid state nothing is cut off |
| BaseSurvivors.OptimizePreserves | src/base.c:989-1226 | in every reachable state, kept records that are not cut off read back their bytes through the rebuilt index, nothing is hidden any more, and distinct ids stay distinct |
| BaseOptimize.OptimizeValid | src/base.c:989-1226 | with distinct, linked ids every kept record reads back, every other id is gone, and the result is head-ok |
| BaseRuns.ReachableStates | src/base.c:407-480 | after any run of writes, deletes and compactions links go strictly forward without sharing, chained live items hash to their slot, live extents are disjoint and in the file, and the search ends at an item of the id's bucket |
| BaseRuns.RunIsMapExactly | src/base.c:486-645 | reads agree with a map updated by the same operations at every point of a run if and only if no delete of it hides a record |
| BaseRuns.RunIsValidExactly | src/base.c:486-645 | every state of a run keeps ids distinct and items linked if and only if no write of it rewrites a hidden record |
| BaseRuns.WriteBringsBack | src/base.c:424-430 | in every reachable state, writing any id into a free head slot makes every other id of the bucket read its first record in the chain, and changes no other bucket's reads; in a valid state those are all other live records of the bucket |
| BaseDeleted.DeleteRemovesExactly | src/base.c:486-516 | in every reachable state, a delete leaves no live record of the id if and only if it had none but the one the search found; in a valid state, if and only if the id was not hidden |
| BaseDeleted.EmptyChainedInRuns | src/base.c:1008-1014 | in every reachable state a live empty record is still in its chain: what compactions cut off is not empty |
| BaseDeleted.StaysDeletedExactly | src/base.c:486-1232 | an id is not found after any run of writes of other ids, deletes and compactions, if and only if no record of it is live, be it chained, hidden or cut off |
| BaseDeleted.DeletedForGood | src/base.c:486-516 | after any run, a deleted id is not found after any further run that does not write it, if and only if it had no live item but the one the search found |
| BaseLosses.DeletedRecordReturns | src/base.c:486-516 | a concrete run after which a deleted id reads back its first contents, although it was found and not hidden when it was deleted |
| BaseLosses.LoneRecordLost | src/base.c:1008-1014 | a concrete run that leaves one live record in a half-used data file and loses it in the compaction |
| BaseLosses.CompactionLosesARecord | src/base.c:1202-1203 | a concrete run in which compaction loses one of three live non-empty records, because another id is stored twice |
| BaseFiles.FilesAreSeparate | include/dps_base.h:29 | each numbered file is in the state that the operations on its own keys lead to |
| BaseFiles.LiveInOwnFile | include/dps_base.h:28-29 | after any run every live item's key belongs to its file and hashes to its head slot |
| BaseFile.DecodeEncode | src/base.c:673-707 | with lossless compression a buffer reads back as written, except an empty one that compresses to something |
| BaseFile.BufferReadsBack | src/base.c:519-718 | in every reachable state a written buffer is what the stored record decodes to, except an empty one that compresses to something |
| BaseFile.SizedRead | src/base.c:667-672 | a read of a written buffer into len bytes gives the buffer back if it fits and is refused if it does not |
| BaseOptimize.RecordsSpaced | src/base.c:1036-1044 | in offset order no kept record reaches the next one, so the size corrections of compaction never apply |
| BaseFile.Base.Seek | src/base.c:407-480 | the chain walk leaves the cursor where the specification's search ends, within the index |
| BaseFile.Base.BaseWrite | src/base.c:519-645 | the two files become those of the specification, through the in-place, appending and chaining branches; a read then gives the buffer back, into a buffer of given size exactly if it fits, and other ids read as before unless the id's free head hid a record |
| BaseFile.Base.BaseDelete | src/base.c:486-516 | the index gets the tombstone of the specification and nothing else |
| BaseFile.Base.BaseRead | src/base.c:648-718 | returns the decoded record, nothing for an unknown id, and nothing when the caller's buffer is too small |
| BaseFile.Base.BaseARead | src/base.c:721-812 | returns the id's contents, which are the decoded record or nothing |
| BaseFile.Base.Slide | src/base.c:1092-1105 | the chunked copy moves a record to a lower, possibly overlapping position with its bytes intact and touches nothing outside the target |
| BaseFile.Base.PackExtents | src/base.c:1021-1116 | sliding the records in offset order packs all of them |
| BaseFile.Base.BaseOptimize | src/base.c:903-1230 | the two files become those of the specification when the compaction branch runs, and stay as they are otherwise |
| LogClean.RemoveDelLogDups | src/cache.c:872-888 | in place, the last entry of each run of equal urls is left |
| LogClean.LastPerUrlIsNewest | src/cache.c:872-888 | of sorted deletes that is one entry per url, taken from the input, and at least as late as every other one of its url |
| LogClean.NewestDelsSame | src/cache.c:2940-2946 | deduplication changes neither which words are superseded nor which urls are deleted |
| LogClean.RemoveOldIsSurvivors | src/cache.c:925-970 | on url-sorted words and one delete per url the pass leaves, in order, the words no later delete supersedes, when the tail moves by whole records or does not move |
| LogClean.MoveTailCopiesUnits | src/cache.c:962-967 | the tail move unit by unit of eight bytes: the written one copies as many units as the tail has records, the whole-record one three for each, and all other units stay |
| LogClean.ByteMoveExact | src/cache.c:962-967 | the move as written gives that result if and only if nothing was dropped before the tail, no tail is left, or every record the byte count does not reach agrees with the one it lies under, which takes two equal records |
| LogClean.NoTailMoveMeans | src/cache.c:962-967 | nothing was dropped before the tail or no tail is left, if and only if no word lies beyond the last deleted url or no word up to it is superseded |
| LogClean.ByteMoveLosesAWord | src/cache.c:965 | three words and one delete for which the move as written keeps the superseded word and loses another url's |
| LogPasses.RemoveOldWords | src/cache.c:925-970 | the two-pointer loop in place leaves what the specification says, for either tail move |
| LogPasses.RemoveOldCrds | src/cache.c:975-1012 | the postings of deleted urls are gone and the others stay in order |
| LogFlush.MergeAscends | src/cache.c:1327-1347 | the backward merge of two ordered lists is ordered (and a permutation of both) |
| LogFlush.MergeBackward | src/cache.c:1327-1347 | merging in place into the old list's buffer reads every old posting before it is overwritten and ends with the merge |
| LogFlush.NewListsOk | src/cache.c:1274-1420 | after a flush every list of the shard is ordered again and none is empty |
| LogProcess.CollectWords | src/cache.c:1225-1266 | the stored words, each once and in order, none flagged |
| LogProcess.GroupIsWord | src/cache.c:1274-1277 | a run of equal words in the sorted log holds all of that word's postings |
| LogProcess.FlagWord | src/cache.c:1280-1286 | the moving flag pointer flags exactly the word's entry if it is stored |
| LogProcess.PostingBase.ProcessBuf | src/cache.c:1190-1436 | every list becomes the old one without deleted urls merged with the log's postings, touched lists once, untouched lists cleaned, emptied ones removed |
| WriteBehind.FlushIsExact | src/cache.c:2938-2961 | after a flush each list is ordered and equals, as a multiset, (old list without deleted urls) plus the pending words no delete supersedes |
| WriteBehind.FlushedListOrdered | src/cache.c:1327-1347 | after a flush a list is ordered by url, and by coordinate within a url |
| WriteBehind.FlushedListHolds | src/cache.c:2938-2961 | after a flush a list holds exactly the old postings whose url has no pending delete and the pending words of which no delete is newer |
| WriteBehind.FlushKeepsView | src/cache.c:2938-2961 | a flush changes nothing about the postings a shard stands for |
| WriteBehind.AnySortWillDo | src/cache.c:2942-2955 | when the tail moves by whole records or does not move, or no two pending words compare equal, the lists after a flush are the same however the three sorts order entries that compare equal |
| WriteBehind.BufferedDeleteExact | src/cache.c:3742-3763 | a buffered delete erases its url from a word if and only if no unsuperseded pending posting of that url and word is as new |
| WriteBehind.BufferedWordExact | src/cache.c:3772-3796 | a buffered word adds its posting exactly when no pending delete of its url is newer |
| WriteRuns.WriteBehindAgrees | src/cache.c:3679-3799 | for every run of commands and every placement of capacity, timed and full flushes, the postings of a word equal those of the index that applies each command at once |
| WriteRuns.FlushedListIsEager | src/cache.c:2975-3020 | after a full flush nothing is pending and the list on disk is the ordered list of those postings |
| WriteRuns.FlushedShardIsEager | src/cached.c:696-700 | after the flush of one shard nothing is pending in it, its lists on disk are the ordered lists of the simple index's postings, and the other shards are as they were |
| WriteRuns.ListsOrdered | src/cache.c:1327-1347 | in every state of every run, each list on disk is ordered by url, and by coordinate within a url |
| WriteRuns.EagerStep | src/cache.c:3679-3799 | the simple index: a command that is not NEWORD takes all postings of its url away, then the command gives those of its words |
| WriteRuns.NewCrdsStep | src/cache.c:3772-3776 | a command's word gives one posting of its url and coordinate, unless the coordinate is zero |
| WriteRuns.RoomMeansNoFlush | src/cache.c:3746-3760 | a buffer that is not full only grows |
| WriteRuns.FullMeansFlush | src/cache.c:3746-3760 | a full buffer is flushed and then holds the new entry alone |
| WriteRuns.PlacementLeavesNoTrace | src/cache.c:2851-2973 | two runs of the same commands, with different buffer sizes, shard counts and flushes, end in the same list for every word, if in neither a flush of the word's shard lost records in a tail move; none does that moves whole records |
| WriteLosses.SameStampKeepsOldWords | src/cache.c:941 | a concrete run with a repeated stamp where the words of the first command stay |
| WriteLosses.LostTail | src/cache.c:965 | a concrete run with ascending stamps in which the move as written loses a document's posting and keeps an erased one |
| WriteLosses.SortOrderMatters | src/cache.c:965 | two sorted orders of the same words for which the move as written keeps different superseded words |
| CacheBuffers.WordBuffer.SaveBuf | src/cache.c:2938-2961 | sorting, deduplicating, dropping and merging in the buffers gives the flush of the specification |
| CacheBuffers.WriteCache.StoreDoc | src/cache.c:3679-3799 | the buffers of all shards become those of the specification, flushing a full one first |
| CacheBuffers.WriteCache.SaveAllBufs | src/cache.c:2975-3020 | from any starting shard, every shard with something pending is flushed exactly once |
| CacheBuffers.Slot | src/cache.c:2999-3003 | the rotation by the caller's shift gives every shard exactly one turn |
| SearchWalk.PresentInLimit | src/cache.c:2012-2048 | with a cursor shared over rising queries the answer is membership in the whole list, and the cursor stays right for every later query |
| SearchWalk.PresentInAll | src/cache.c:2685-2695 | the test stops at the first refusal and answers whether all loaded limits admit the url |
| SearchWalk.CoordinateParts | include/dps_common.h:445-449 | a coordinate is a position above a section above a length, and tagging puts the word's number in the length's place |
| SearchWalk.FilteredKeeps | src/cache.c:2697-2727 | which postings the walk keeps and as what, in positions, sections, lengths and loaded limits: in order, those whose url is in every loaded limit, whose section is the one asked for and whose length is the word's |
| SearchWalk.StackItem.TakeUrl | src/cache.c:2697-2734 | a word reads the postings of the current url, and has then kept the matching ones of all it has read, never writing past its read cursor |
| SearchWalk.Walk | src/cache.c:2654-2739 | the walk ends with each word holding exactly its matching tagged postings in order, and the total count |
| SearchAnswer.FilteredIsMatches | src/cache.c:2654-2739 | the kept postings are in url order and are exactly the tagged matches |
| SearchAnswer.SearchSeesEager | src/cache.c:2654-2739 | after any run and a full flush, the walk keeps of the list on disk what it would keep of the index that applies each command at once |
| SearchLimits.RangeIsSelected | src/cache.c:1633-1651 | with contiguous extents the data between two entries are the urls of the entries in range |
| SearchLimits.SelectedKeeps | src/cache.c:1571-1651 | a range selects, in order, the urls of the entries whose key is neither below the lower nor above the upper bound |
| SearchLimits.NestedRangeMeans | src/cache.c:1578-1613 | which entries are in a nested range, by their two halves |
| SearchLimits.NestedRange | src/cache.c:1571-1614 | the two binary searches find exactly the entries between the bounds, or that there is none |
| SearchLimits.LoadNestedLimit | src/cache.c:1524-1684 | the limit admits the urls of the entries in range, sorted if there are several and as stored if there is one, or the single url 0 when there is none |
| SearchLimits.LoadTimeLimit | src/cache.c:1893-2003 | the same for time limits, except for a lone entry below the upper bound |
| SearchLimits.LoneIsRefused | src/cache.c:1920-1940 | the time limit is right if and only if that lone entry does not occur |

## Left out

- I/O failures, locks, threads, signals, sockets, memory allocation and logging: success is assumed.
- The gap and word counts that only feed statistics (global maximum, sum and number), and text output.
- CarryCode.QCeilLog2: gaps above 2^31, where the source's signed shift is negative, are treated as the
  unsigned value; such gaps are refused by the 2^28 limit in the model.
- CarryCoder.CarryLimitWrite: an encoder loop that never advances is the failure `NoColumnFits`; a 33rd
  field for the 32-entry array and a read before the array are the failures `FieldOverflow` and
  `EmptyBlock`. The model does not say what the program does after them.
- CarryCode.Gaps: DOCGAP mode and reading a list from a file (`ReadDocGaps`) are not modelled.
- BaseFile.Base.Seek: the two files of one file number. `BaseFiles` says which file a key goes to and
  that the files do not touch each other; closing one and opening another is not modelled. Positions
  in the index file count items, not bytes.
- The repair of a truncated chain in DpsBaseSeek and of bad sizes and offsets in DpsBaseOptimize:
  `BaseRuns.ReachableStates` and `BaseOptimize.RecordsSpaced` show that they are never reached.
- BaseFile.Base.BaseOptimize: the fragmentation ratio is a free choice to compact or not.
- DpsBaseRelocate, DpsBaseCheckup, and the conversion of old index formats on open.
- LogClean.ByteMoveExact: the byte layout assumed is that of a 64-bit build, records of 24 bytes moved
  8 bytes each.
- WriteBehind.AnySortWillDo: for the move as written with a tail to move and equal words, when the
  lists still agree is not said.
- LogProcess.PostingBase.ProcessBuf: the posting lists are a map from word to list, not the hash file
  of `BaseFile`, because a flush that deletes an emptied head list can hide the lists behind it. On a
  map every stored word is met once, so removing duplicate words from the list of stored words has
  nothing to do, and word 0 is a key like any other.
- WriteRuns.WriteBehindAgrees: asks that the stamps of a url ascend (a command that only adds words may
  repeat one), and for the tail move as written, that the word's shard is intact.
- The logs_only mode, the DATA command, the deletion of the url's info record, and optimizing a shard
  right after its flush.
- SearchLimits.LoadTimeLimit: the bounds are parameters; reading them from the query, the period mode's
  clock and the divisor are not modelled. Positions and lengths count urls, not bytes.
- SearchWalk.Walk: asks for ordered lists and limits, which `SearchAnswer.SearchSeesEager` and
  `SearchLimits` supply; reading the lists, merging equal query words and dropping sections of weight
  zero come before the walk and are not modelled.
- The exact-match limit LoadLinearLimit, the walk for a query without words, grouping and relevance.
