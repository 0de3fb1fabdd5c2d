# Velr offline importer: verified model

The offline importer writes a SQLite database file by hand, without SQL, from bounded spools. Most of its
parts are a fast form of something simple. This project models them in Dafny and proves that they are:

- packed B-trees, built bottom-up from a sorted stream, with overflow chains whose pointers are computed
  before their pages exist (`PageFormat`, `PageFile`, `PageAllocation`, `CellWriting`, `TreeContents`,
  `Layout`, `LeafWriting`, `LevelWriting`, `TreeWriting`);
- the planner that predicts the number of pages from record lengths alone (`PagePlan`);
- the block allocator that concurrent writers share, as a machine over its atomic steps
  (`AllocatorProtocol`), the freelist rebuilt from the returned pages (`Freelist`), and both together with
  the trees (`Publishing`);
- records and variable-length integers (`RecordCodec`, `Varints`);
- the one-pass STAT1/STAT4 sampler, which only sees the first changed field of each row (`Runs`, `Sampler`,
  `KeyCounts`);
- the integer-ID map with its four forms and one budget (`IdPages`, `RadixMaps`, `IntegerIds`);
- the external sort: key packing, radix sort, runs and merges (`BitOps`, `KeyCodec`, `RadixSorting`,
  `ExternalSort`, `DirectMerge`, `IndexSorting`);
- the CSV reader, and the CSV printer that is its inverse (`CsvFormat`, `CsvReading`, `CsvPrinting`, `Utf8`),
  with a grammar of fields, lines and records that the reader is proved to follow (`CsvGrammar`, `CsvStream`);
- the inflater pipeline, as a machine over the steps of its two threads (`Inflater`);
- the graph-shape counters and the two queries over them (`ShapeCounting`, `ImportedRows`, `ShapeImport`,
  `ShapeQueries`).

Objects whose methods update their fields are classes; loops over buffers are methods with invariants; the
specifications they are proved against are functions and predicates. Page files are maps from page numbers
to bytes, read back by an independent reader that knows only the file format; a CSV stream is the bytes left
to come, delivered in chunks that the environment chooses. A `hide` at the head of a proof names definitions
it does not use.

`dafny verify dfyconfig.toml` checks the project.

Where the code and its descriptions differ, or a property has a limit:

- A printed CSV row is read back under the condition of `CsvPrinting.RowReadsBackExactly`, which is exact;
  `BackslashesAreNotKept`, `BlankRowsAreSkipped` and `MarkIsLost` show what happens otherwise.
- A panic of the inflater's worker loses the part of the last buffer that was filled
  (`Inflater.PromiseIsAll`).
- The second charge of a directory growth (`rust/velr-cli/src/offline_import/native/id_map.rs:324-327`) can not fail here, because memory reserved
  exactly is what was charged; budget accounting is exact under that reading.
- The guard on the root (`rust/velr-cli/src/offline_import/native/page_writer.rs:790-797`) compares it with the page counter after the pages of the tree are
  written, so without an allocator it lets a root pass that is one of them. A tree is promised for a root in front of
  them, which is where the roots of a schema are. Over a leaf or an interior page of its own, the tree is lost
  (`TreeWriting.RootOverItsLeaf`); over an overflow page nothing is claimed, since the root's bytes may happen to be
  those of the overflow page.

## Model

| member | source | states |
|---|---|---|
| TreeWriting.Tree | rust/velr-cli/src/offline_import/native/page_writer.rs:947-1011 | For any record stream, of either kind, and a root that is none of the pages appended for it: on success the pages reached from the root hold exactly the records, each once and in order, all leaves at one depth, and in a table every rowid is found by its interior keys. The pages taken are exactly `Needed`, of which all but the overflow pages hang from the root. A root that replaces one of those leaves nothing to read. Without overflow pages and without an allocator, the tree can be read if and only if the root lies in front of the first new page (or is the lock-byte page). The writer on a range succeeds exactly when enough pages are free and the root does not lie behind the last page taken. Nothing outside the new pages, the root and the lock-byte page changes. |
| TreeWriting.BuildTree | rust/velr-cli/src/offline_import/native/page_writer.rs:957-1011 | The same without the claim of the root: which pages are taken, how many, and what stands on them. |
| TreeWriting.RootOverItsLeaf | rust/velr-cli/src/offline_import/native/page_writer.rs:785-800 | An input for which the guard on the root lets a lost tree pass: pages of 512 bytes, two rows of 400 bytes, and the next free page as root. The call succeeds and nothing can be read from the root at any depth. |
| TreeWriting.TwoRowsTwoLeaves | rust/velr-cli/src/offline_import/native/page_writer.rs:963-985 | Those two rows need two leaves and no overflow page. |
| TreeWriting.RootDecides | rust/velr-cli/src/offline_import/native/page_writer.rs:785-805 | When no page of the tree is an overflow page, it can be read if and only if the root is not one of its pages. |
| TreeWriting.WriteLeaves | rust/velr-cli/src/offline_import/native/page_writer.rs:950-985 | The leaf loop: what is on finished leaves, in promoted index cells and on the open leaf is the stream so far; rowids that do not increase are refused. |
| TreeWriting.PlaceRow | rust/velr-cli/src/offline_import/native/page_writer.rs:953-985 | One record more: its cell goes on the open leaf, or the leaf is closed (its last index cell promoted) and a new one started, and the stream so far grows by that record alone. |
| TreeWriting.BuildLevels | rust/velr-cli/src/offline_import/native/page_writer.rs:998-1011 | Levels are built until one group is left, and that group is the root; each level takes the pages that `TreePages` counts. |
| TreeWriting.Level | rust/velr-cli/src/offline_import/native/page_writer.rs:1037-1077 | The children of one level become parents with the same contents in the same order, and the next level is the one `NextLevel` predicts, also when the last group borrows a child. |
| TreeWriting.GroupChildren | rust/velr-cli/src/offline_import/native/page_writer.rs:1043-1060 | The grouping loop of a level: every closed group but the deferred one is on its parent page. |
| TreeWriting.FinishedGrows | rust/velr-cli/src/offline_import/native/page_writer.rs:947-1011 | A finished tree stays readable whatever pages are written after it. |
| TreeContents.RootBelowItselfIsLost | rust/velr-cli/src/offline_import/native/page_writer.rs:785-805 | A root written over a page that hangs from one of its own subtrees, in a file otherwise as before, can not be read as a tree of any depth: the way down that led to the old page leads back to the root. |
| TreeContents.RootOverLeafIsLost | rust/velr-cli/src/offline_import/native/page_writer.rs:785-805 | The smallest case: a root over one of the leaves right below it. |
| TreeContents.CycleIsLost | rust/velr-cli/src/offline_import/native/page_writer.rs:1013-1035 | A page from which pointers lead back to it is a tree of no depth. |
| TreeContents.ParentIsRead | rust/velr-cli/src/offline_import/native/page_writer.rs:1013-1035 | An interior page with its children reads as their records and separators in order. |
| TreeContents.ChildIsFound | rust/velr-cli/src/offline_import/native/page_writer.rs:1013-1035 | Descending by the first key that is not smaller leads to the child that holds the rowid, if any does. |
| Layout.SettledGroups | rust/velr-cli/src/offline_import/native/page_writer.rs:1037-1077 | The groups of a level join to its children, none has fewer than two, and the group that lends a child had at least four. |
| Layout.NextLevelHalves | rust/velr-cli/src/offline_import/native/page_writer.rs:1037-1077 | Each level has at most half as many pages as the one below and its boundaries are small again, so building levels ends. |
| Layout.ClosedGroupsAreLarge | rust/velr-cli/src/offline_import/native/page_writer.rs:1043-1060 | A group is only closed with at least four children. |
| Layout.ClosedGroupsAreFull | rust/velr-cli/src/offline_import/native/page_writer.rs:1043-1060 | And only when it is full: all its children but the last fit on a page, all of them do not. |
| LeafWriting.FullLeafHasTwo | rust/velr-cli/src/offline_import/native/page_writer.rs:963-985 | When an index leaf has no room for a cell it holds at least two, so it is not empty after its last one is promoted. |
| LeafWriting.BoundaryIsSmall | rust/velr-cli/src/offline_import/native/page_writer.rs:807-830 | By the payload limits of the format, three boundaries fit on an interior page and one cell on an empty leaf. |
| LevelWriting.ParentPage | rust/velr-cli/src/offline_import/native/page_writer.rs:1013-1035 | The page built for a group is a parent of exactly that group. |
| PageFormat.Page.PushParts | rust/velr-cli/src/offline_import/native/page_writer.rs:325-336 | A cell that fits is put behind the others; the page then holds them and it. |
| PageFormat.Page.Pop | rust/velr-cli/src/offline_import/native/page_writer.rs:337-347 | Taking the last cell off returns it and leaves the others. |
| PageFormat.Page.Image | rust/velr-cli/src/offline_import/native/page_writer.rs:348-367 | The image is a packed b-tree page with exactly the pushed cells, in order, and the right-most pointer: no freeblock, no fragment, a content area that starts at the smallest pointer (at the end of the page without cells) behind the pointers, and each cell ending where the one before it starts. |
| PageFormat.BytesOfPage | rust/velr-cli/src/offline_import/native/page_writer.rs:348-367 | The bytes of such a page by the numbers of section 1.6 of the SQLite file format: type, cell count, content start, pointers and right-most pointer stand where the section puts them, most significant byte first, and the start of the content with the lengths of the cells is the page size. |
| PageFormat.CellsFillPage | rust/velr-cli/src/offline_import/native/page_writer.rs:325-367 | The cells fill the page from the start of the content area to its end without gap or overlap. |
| CellWriting.WriteCell | rust/velr-cli/src/offline_import/native/page_writer.rs:807-859 | The cell that is built encodes the record: its local part and the chain its pointer leads to, read together, are the record. |
| CellWriting.WriteChain | rust/velr-cli/src/offline_import/native/page_writer.rs:836-856 | Every pointer of the chain is written before its page exists, and the chain read from the predicted first page, past the lock-byte page, is the data, ending in a zero pointer. |
| CellWriting.LocalBytes | rust/velr-cli/src/offline_import/native/page_writer.rs:813-830 | The number of payload bytes kept on the page is that of section 1.6 of the SQLite file format. |
| CellWriting.ChainPagesIsCeiling | rust/velr-cli/src/offline_import/native/page_writer.rs:832 | The page count of a chain is the length divided by the usable size less four, rounded up. |
| PageFile.LocalSize | rust/velr-cli/src/offline_import/native/page_writer.rs:813-830 | The local size is within the limit of its kind, and all of the payload exactly up to that limit. |
| PageFile.LocalSizeFills | rust/velr-cli/src/offline_import/native/page_writer.rs:813-830 | Above the limit the local size is at least the lower bound, and it is the least size within the bounds that leaves full overflow pages; where no size does, it is the lower bound. |
| PageAllocation.BlockAllocator.Grant | rust/velr-cli/src/offline_import/native/page_writer.rs:450-473 | A grant is the larger of the block size and the need in usable pages, at or behind the counter it saw, and moves the counter to its end; it fails only when the page space is exhausted. |
| PageAllocation.BlockAllocator.ReturnTail | rust/velr-cli/src/offline_import/native/page_writer.rs:475-501 | The unused pages of a block, without the lock-byte page, join the returned ranges, and the count with them. |
| PageAllocation.BlockAllocator.ClaimRoot | rust/velr-cli/src/offline_import/native/page_writer.rs:435-448 | A root is claimed once, and only if it lies in the bootstrap pages. |
| PageAllocation.PageWriter.EnsureContiguous | rust/velr-cli/src/offline_import/native/page_writer.rs:626-649 | Afterwards the pages asked for lie in one block; a block with room is kept. |
| PageAllocation.PageWriter.Append | rust/velr-cli/src/offline_import/native/page_writer.rs:763-783 | A page goes to the next usable number, which was not written before, and fails exactly when the range is full or the page space exhausted. |
| PageAllocation.PageWriter.Reserve | rust/velr-cli/src/offline_import/native/page_writer.rs:665-685 | A reserved range holds exactly the pages asked for, the lock-byte page not counted and not last. |
| PageAllocation.PageWriter.Fork | rust/velr-cli/src/offline_import/native/page_writer.rs:687-714 | A range writer gets its range, its root and nothing else. |
| PageAllocation.PageWriter.Complete | rust/velr-cli/src/offline_import/native/page_writer.rs:716-734 | A range writer completes exactly when its range is full; a dynamic one returns its tail and leaves, unless the allocator has failed. |
| PageAllocation.PageWriter.ForkDynamic | rust/velr-cli/src/offline_import/native/page_writer.rs:598-624 | A dynamic worker is counted as active and claims its root, or is refused. |
| PageAllocation.LockByteIsOnIt | rust/velr-cli/src/offline_import/native/page_writer.rs:580-590 | The page left out is the one whose bytes include that at offset 2 to the 30th. |
| AllocatorProtocol.PagesStayPartitioned | rust/velr-cli/src/offline_import/native/page_writer.rs:434-502 | Over every interleaving of grants, appends, tail returns, completions and drops: each page from the bootstrap end to the counter is held by one writer, returned, or the lock-byte page, and the returned count is right. |
| AllocatorProtocol.FinishNeedsEveryWorker | rust/velr-cli/src/offline_import/native/page_writer.rs:1079-1093 | The coordinator passes its gate only when every worker has completed and none was dropped. |
| AllocatorProtocol.FlagBeforeCountIsNotEnough | rust/velr-cli/src/offline_import/native/page_writer.rs:1088-1093 | Were the failure flag read before the active count, a run exists in which the gate is passed although a worker was dropped. |
| AllocatorProtocol.FinishedRunIsComplete | rust/velr-cli/src/offline_import/native/page_writer.rs:1180-1188 | When a run has finished, every page was written by exactly one writer or returned, and the file holds what each writer wrote. |
| AllocatorProtocol.StepOwnership | rust/velr-cli/src/offline_import/native/page_writer.rs:434-502 | Each step keeps the partition of the pages. |
| AllocatorProtocol.StepGate | rust/velr-cli/src/offline_import/native/page_writer.rs:1180-1188 | Each step keeps the relation of flag, count and worker positions on which the gate rests. |
| Publishing.PassedRunCanFinish | rust/velr-cli/src/offline_import/native/page_writer.rs:1094-1104 | What the coordinator gives back at the gate is what rebuilding the freelist requires: separate ranges of the file, with their count. |
| Publishing.TreesArePublished | rust/velr-cli/src/offline_import/native/page_writer.rs:1079-1178 | Every tree written in a run that finished, by whichever writer, can be read from the published file, whatever is done to the returned pages. |
| Publishing.WrittenTreeIsPublished | rust/velr-cli/src/offline_import/native/page_writer.rs:1079-1178 | The contracts of the tree writer and of the protocol together: a tree that `Tree` promises to stand on its own pages can be read from the published file when its writer took the steps that put those pages there, whatever other writers did meanwhile. |
| Publishing.WrittenStays | rust/velr-cli/src/offline_import/native/page_writer.rs:763-805 | What a writer appends, and a root it does not replace again, stays as it is in all later states, whoever steps. |
| Freelist.RebuildFreelist | rust/velr-cli/src/offline_import/native/page_writer.rs:1105-1168 | A reader of section 1.5 of the SQLite file format that starts at the new header meets every page of every returned range once, then the old list, and the count agrees; no other page changes. |
| Freelist.WriteTrunks | rust/velr-cli/src/offline_import/native/page_writer.rs:1129-1160 | Trunk pages, each with at most the six-short capacity of leaves, link all returned pages in order; it fails only without pages or past the page limit. |
| Freelist.LinkedListIsRead | rust/velr-cli/src/offline_import/native/page_writer.rs:1129-1160 | Linked trunks read as their pages followed by the list they end in. |
| Freelist.ExpandedIsDistinct | rust/velr-cli/src/offline_import/native/page_writer.rs:475-501 | Separate ranges name no page twice. |
| Freelist.Finish | rust/velr-cli/src/offline_import/native/page_writer.rs:1079-1178 | The gate, the tail, the freelist and the header: succeeds exactly for a coordinator without active or failed workers and with a count within limits, and sets size and change counter. |
| PagePlan.PlanIsExact | rust/velr-cli/src/offline_import/native/page_plan.rs:100-219 | The number of pages planned from record lengths alone is the number the writer takes, for all records without overflow. |
| PagePlan.WritePlanned | rust/velr-cli/src/offline_import/native/page_plan.rs:206-219 | A writer on a range reserved for the plan writes the whole index and ends with the range full, also across the lock-byte page; it succeeds exactly when there is a plan and room for it. |
| PagePlan.PlanLevel | rust/velr-cli/src/offline_import/native/page_plan.rs:100-159 | One level, planned from boundary lengths with two groups held back, is the level the writer builds. |
| PagePlan.IndexPagePlan.Push | rust/velr-cli/src/offline_import/native/page_plan.rs:177-205 | A length is taken exactly when its record needs no overflow page. |
| PagePlan.IndexPagePlan.Finish | rust/velr-cli/src/offline_import/native/page_plan.rs:206-219 | The result is the planned count for all lengths pushed, or an error past the page limit. |
| PagePlan.Plan | rust/velr-cli/src/offline_import/native/page_plan.rs:223-245 | Planning a whole stream gives what the writer needs. |
| RecordCodec.RecordRoundTrip | rust/velr-cli/src/offline_import/native/page_writer.rs:95-159 | Reading an encoded record gives back its values, for every list of values. |
| RecordCodec.HeaderSize | rust/velr-cli/src/offline_import/native/page_writer.rs:253-289 | The header length written is the least that counts itself. |
| RecordCodec.SerialTypeTells | rust/velr-cli/src/offline_import/native/page_writer.rs:160-183 | From its serial type the kind of a value and the length of its bytes can be told, by the numbers of section 2.1 of the SQLite file format. |
| RecordCodec.NarrowestInteger | rust/velr-cli/src/offline_import/native/page_writer.rs:160-171 | An integer is stored in the narrowest of the widths that hold it, and in none if it is zero or one. |
| RecordCodec.EncodeRecord | rust/velr-cli/src/offline_import/native/page_writer.rs:184-200 | The general encoder produces the record of section 2.1 of the SQLite file format. |
| RecordCodec.EncodeNodeRecord | rust/velr-cli/src/offline_import/native/page_writer.rs:201-207 | The node encoder produces the same bytes. |
| RecordCodec.EncodeEdgeRecord | rust/velr-cli/src/offline_import/native/page_writer.rs:208-218 | The edge encoder produces the same bytes. |
| RecordCodec.EncodePropertyRecord | rust/velr-cli/src/offline_import/native/page_writer.rs:219-252 | The property encoder produces the same bytes. |
| RecordCodec.EncodeIntegerRecord | rust/velr-cli/src/offline_import/native/index_builder.rs:149-179 | The integer encoder produces the same bytes. |
| Varints.VarintRoundTrip | rust/velr-cli/src/offline_import/native/page_writer.rs:70-93 | Every unsigned 64-bit value is read back from its bytes, whatever surrounds them. |
| Varints.VarintLengthIsMinimal | rust/velr-cli/src/offline_import/native/page_writer.rs:43-50 | No shorter length holds the value. |
| Varints.VarintSays | rust/velr-cli/src/offline_import/native/page_writer.rs:51-69 | The bytes are the digits of the value in base 128, most significant first, with a whole last byte in the longest form, and the flag on all but the last. |
| Varints.AppendVarint | rust/velr-cli/src/offline_import/native/page_writer.rs:51-69 | The encoder appends exactly the bytes of the value. |
| KeyCounts.Analyze | rust/velr-cli/src/offline_import/native/index_stats.rs:89-165 | For any sorted stream of distinct keys: every published count is the true count over all keys (rows with the same prefix, rows before it, distinct prefixes before it); samples come in stream order; and every prefix of any key has a sampled row that shares it, unless all 24 places are taken and every prefix that is sampled for its count is shared by more keys, or by as many and not longer. It fails exactly for bad column counts or equal neighbours. |
| Sampler.IndexStatistics.Push | rust/velr-cli/src/offline_import/native/index_stats.rs:89-133 | One row more keeps every stored and candidate sample exact or marked as unfinished, the order, the bound of 24, the schedule, and for every closed run a stored row or 24 stored rows that all outweigh it; a push fails exactly out of range. |
| Sampler.IndexStatistics.Finish | rust/velr-cli/src/offline_import/native/index_stats.rs:135-165 | What is published is exact at every column, in stream order, at most 24 samples, with the last row of every ninth of the stream among them, and stat1 the row count and prefix averages. Every run at every column but the last has a published row, unless 24 are published and each one not of the schedule stands for a run that is longer, or as long and of a prefix not longer, no two for the same run. It fails exactly on a wrong row count. |
| Sampler.BestExtends | rust/velr-cli/src/offline_import/native/index_stats.rs:126-133 | A candidate that survives a row of its own run stays the last row of its longest sub-run: if it had not been, the new row would have been better. |
| Sampler.LongerIsBetter | rust/velr-cli/src/offline_import/native/index_stats.rs:167-175 | A row that lengthens the next longer run of the newest candidate is better than it. |
| Sampler.BetterTransitive | rust/velr-cli/src/offline_import/native/index_stats.rs:177-184 | The order of samples with one hash seed is transitive. |
| Sampler.BetterMeans | rust/velr-cli/src/offline_import/native/index_stats.rs:167-184 | Of two samples the longer run is better, then the shorter prefix, then the larger count at the first longer prefix where the counts differ, and the larger hash only if all of these are alike. |
| Sampler.IndexStatistics.Insert | rust/velr-cli/src/offline_import/native/index_stats.rs:186-217 | An offered sample is appended, upgrades the best of those whose run is open, or is dropped for a periodic one, as the rule says; periodic rows are never lost. |
| Sampler.IndexStatistics.FindMinimum | rust/velr-cli/src/offline_import/native/index_stats.rs:219-232 | When the array is full there is a sample to evict, and it is a worst one that is not periodic. |
| Sampler.IndexStatistics.PushPrevious | rust/velr-cli/src/offline_import/native/index_stats.rs:234-253 | Closing the runs from the changed field on offers each candidate with its full counts, so that every run that ends has a stored row or is outweighed by all stored ones, and fills in what was marked. |
| Sampler.IndexStatistics.OfferBest | rust/velr-cli/src/offline_import/native/index_stats.rs:236-242 | Closing one run: it has a stored row afterwards, or all 24 places are taken by rows that outweigh it; the runs closed before keep theirs. |
| Sampler.FairIsPublished | rust/velr-cli/src/offline_import/native/index_stats.rs:149-165 | What holds of the stored samples for every closed run holds of the published ones, in terms of their rows and counts alone. |
| Sampler.ForemostStep | rust/velr-cli/src/offline_import/native/index_stats.rs:126-133 | The candidate of a run is a row whose counts at the longer prefixes are the largest seen in the run. |
| Sampler.IndexStatistics.BackFill | rust/velr-cli/src/offline_import/native/index_stats.rs:244-253 | Counts left at zero are filled with those of the run that ends, which are exact. |
| Sampler.IndexStatistics.Accumulate | rust/velr-cli/src/offline_import/native/index_stats.rs:99-115 | The counters of the newest row are those of its prefixes in the longer stream. |
| Sampler.IndexStatistics.Periodic | rust/velr-cli/src/offline_import/native/index_stats.rs:116-125 | The last row of every interval is stored, at most eight times. |
| Sampler.AverageRows | rust/velr-cli/src/offline_import/native/index_stats.rs:140-147 | Rows per distinct prefix are rounded up, except that up to a tenth above one counts as one. |
| Sampler.ScheduleIsPublished | rust/velr-cli/src/offline_import/native/index_stats.rs:116-125 | Every scheduled row of the stream is among the published samples. |
| Runs.Extend | rust/velr-cli/src/offline_import/native/index_stats.rs:99-115 | What one row more means for the runs of all prefixes: only the runs that are open and agree with the row grow. The counters of these lines follow it, see `Accumulate`. |
| KeyCounts.ExactIsCount | rust/velr-cli/src/offline_import/native/index_stats.rs:149-165 | Run lengths and run starts of a row are numbers of keys: those with its prefix, before it, and distinct before it. |
| KeyCounts.RunsArePrefixes | rust/velr-cli/src/offline_import/native/index_stats.rs:149-165 | That every run is represented means that every prefix of a key is. |
| KeyCounts.FirstDifference | rust/velr-cli/src/offline_import/native/index_builder.rs:484-500 | The first field at which two neighbours differ, or an error when there is none. |
| IntegerIds.IntegerIdMap.Insert | rust/velr-cli/src/offline_import/native/id_map.rs:532-605 | For any groups and IDs, whatever form the group is in or changes to: the result says whether the ID is new, a new one is added, a known one keeps its node, and other groups are untouched. |
| IntegerIds.IntegerIdMap.Seal | rust/velr-cli/src/offline_import/native/id_map.rs:618-709 | Sealing changes no answer; and when every direct group fits in its dense form, none goes to the table. |
| IntegerIds.IntegerIdMap.Lookup | rust/velr-cli/src/offline_import/native/id_map.rs:710-721 | After sealing, the answer, the table being asked where the map says so, is the node first inserted, or none. |
| IntegerIds.IntegerIdMap.Migrate | rust/velr-cli/src/offline_import/native/id_map.rs:513-522 | Moving a group to the table replays the spool without changing what it maps. |
| IntegerIds.IntegerIdMap.Expand | rust/velr-cli/src/offline_import/native/id_map.rs:558-585 | Turning a range into pages keeps its IDs and nodes, or leaves it to the table when the budget does not allow it. |
| RadixMaps.Insert | rust/velr-cli/src/offline_import/native/id_map.rs:344-359 | The paged map grows by a new ID exactly when the budget covers what the insertion costs, and is then charged that; otherwise it maps the same. |
| RadixMaps.DirectorySlot | rust/velr-cli/src/offline_import/native/id_map.rs:292-333 | A directory grows to hold a key on either side of its base, moving no entry, at the exact cost of the new entries. |
| RadixMaps.LengthIsLeast | rust/velr-cli/src/offline_import/native/id_map.rs:292-333 | It grows to the least length that has an entry for the key and all the entries there were. |
| RadixMaps.Seal | rust/velr-cli/src/offline_import/native/id_map.rs:391-405 | Sealing the pages needs what they say, fails exactly beyond the budget without compression, and keeps the set of IDs. |
| RadixMaps.LookupIsView | rust/velr-cli/src/offline_import/native/id_map.rs:411-414 | A sealed map that was filled answers as the mapping it was built from. |
| IdPages.Insert | rust/velr-cli/src/offline_import/native/id_map.rs:141-160 | A page records a slot once. |
| IdPages.Seal | rust/velr-cli/src/offline_import/native/id_map.rs:194-244 | The ranks and value form chosen answer for exactly the slots collected, within the budget, at the cost announced. |
| IdPages.Set | rust/velr-cli/src/offline_import/native/id_map.rs:245-258 | Filling in a value finds its place by rank and disturbs no other. |
| IndexSorting.SortIndex | rust/velr-cli/src/offline_import/native/index_builder.rs:402-539 | The whole sort: the emitted tuples are the spool in index order; a reader that takes one frame after another from the start of the stream gets exactly their records, in order, ends with the stream, and stands at the given offset before each; the statistics are exact. It fails exactly for a bad specification or equal rows. |
| IndexSorting.WriteStream | rust/velr-cli/src/offline_import/native/index_builder.rs:1077-1101 | Reading one frame behind another from the start gives exactly the encoded keys, in order, up to the end of the stream, and each offset is where the reader stands. |
| IndexSorting.FrameAtOffset | rust/velr-cli/src/offline_import/native/index_builder.rs:1074-1101 | Each record can also be read at its offset alone. |
| IndexSorting.RecordsKeepOrder | rust/velr-cli/src/offline_import/native/index_builder.rs:484-500 | Records compare as the sorted fields do, so the statistics see the order of the index. |
| ExternalSort.SortKeys | rust/velr-cli/src/offline_import/native/index_builder.rs:402-470 | For any number of workers and any run size, the output is sorted and has the same keys as the input. |
| ExternalSort.StridesCover | rust/velr-cli/src/offline_import/native/index_builder.rs:542-565 | Worker-strided runs cover every row once. |
| ExternalSort.MakeRuns | rust/velr-cli/src/offline_import/native/index_builder.rs:542-599 | The runs of one worker are sorted and hold its rows. |
| ExternalSort.MergeGenerations | rust/velr-cli/src/offline_import/native/index_builder.rs:455-470 | Any number of generations of sixteen-way merges ends, sorted, with all keys. |
| ExternalSort.MergeVisit | rust/velr-cli/src/offline_import/native/index_builder.rs:1045-1072 | One merge visits all keys in order, each with the run and position it came from. |
| RadixSorting.RadixSort | rust/velr-cli/src/offline_import/native/index_builder.rs:912-970 | Sorting by digits from the lowest, leaving out passes in which all digits are equal, is the stable sort, and sorts keys of that many bytes. |
| RadixSorting.RadixSortPrecomputed | rust/velr-cli/src/offline_import/native/index_builder.rs:912-970 | So is the variant that counts all digits beforehand. |
| RadixSorting.RadixSorts | rust/velr-cli/src/offline_import/native/index_builder.rs:912-970 | Stable passes from the lowest digit sort by all digits. |
| RadixSorting.ConstantPass | rust/velr-cli/src/offline_import/native/index_builder.rs:912-970 | A pass over equal digits changes nothing. |
| DirectMerge.MergeDirect | rust/velr-cli/src/offline_import/native/index_builder.rs:1472-1585 | Each row of a direct merge comes with a witness from which its key is found again in its run; more than sixteen runs are refused. |
| KeyCodec.PackRoundTrip | rust/velr-cli/src/offline_import/native/index_builder.rs:698-716 | Unpacking a packed tuple gives back every sorted field, for tuples within the observed ranges. |
| KeyCodec.PackKeepsOrder | rust/velr-cli/src/offline_import/native/index_builder.rs:741-750 | Packed keys compare as the sorted fields do, as signed numbers in their order, and are equal only for equal fields, constant fields included. |
| KeyCodec.PackIsNarrow | rust/velr-cli/src/offline_import/native/index_builder.rs:717-719 | A packed key has as many bytes as there are passes. |
| KeyCodec.WordKeysAgree | rust/velr-cli/src/offline_import/native/index_builder.rs:853-869 | Keys kept as words have the digits and the order of the number they spell. |
| KeyCodec.Words96Spell | rust/velr-cli/src/offline_import/native/index_builder.rs:741-753 | The three words of a 96-bit key spell it. |
| KeyCodec.NewCodec | rust/velr-cli/src/offline_import/native/index_builder.rs:611-670 | A codec exists exactly for a valid specification, and covers every row of the spool. |
| KeyCodec.IntegerSpool.Push | rust/velr-cli/src/offline_import/native/index_builder.rs:245-266 | A row with the right number of fields is appended and the observed ranges widened, until the spool is sealed. |
| CsvReading.CsvReader.NextBorrowed | rust/velr-cli/src/import/csv.rs:104-216 | The next record, with cells, quoting and line, or the error, is that of the stream, however it arrives: the path inside the buffer and the streaming path agree. |
| CsvReading.ReadAll | rust/velr-cli/src/import/csv.rs:97-216 | All records and the error that ends them depend on the bytes and options alone. |
| CsvReading.ParseUnquotedRecord | rust/velr-cli/src/import/csv.rs:235-274 | Splitting a line without quotes at delimiters gives what the general parser gives. |
| CsvReading.PhysicalLine | rust/velr-cli/src/import/csv.rs:276-313 | A line is taken up to its terminator, split anywhere across chunks, within the record limit. |
| CsvReading.ParseRecord | rust/velr-cli/src/import/csv.rs:315-448 | Spans and decoded fields are the fields of the record. |
| CsvReading.ReadQuoted | rust/velr-cli/src/import/csv.rs:336-420 | The inner loop for a quoted field, with doubled quotes and backslash escapes, and text copied only when it must be. |
| CsvGrammar.RecordMeans | rust/velr-cli/src/import/csv.rs:315-448 | For every choice of options: a line is parsed to these cells if and only if a grammar over its bytes gives them (an unquoted field is all bytes up to the first delimiter, quotes included; a quoted field is blanks, if text is trimmed, a quote, a list of plain bytes and escapes that fits, and a quote before a delimiter or the end), and more lines are asked for if and only if a quoted field does not end. |
| CsvGrammar.FieldSays | rust/velr-cli/src/import/csv.rs:315-372 | A field is quoted exactly when its first bytes are the quote, or, where text is trimmed, the first behind spaces and tabs that start no delimiter; the text of any other is all bytes up to the first delimiter. |
| CsvGrammar.RefusedRecord | rust/velr-cli/src/import/csv.rs:336-448 | A line is refused for the first field that is: one with data behind its closing quote, one longer than the limit, or one whose escapes leave no valid text, as the error says. |
| CsvStream.NextRecordIsAt | rust/velr-cli/src/import/csv.rs:104-216 | A record that is read is the one at the first byte behind the mark and the blank lines: the fewest whole lines that leave no field open, within the limit, with the cells of the grammar; reading goes on behind it. |
| CsvStream.RecordIsNext | rust/velr-cli/src/import/csv.rs:104-216 | Conversely, the record behind a mark and blank lines is the next one read, over all its lines, under the number of its first line, when it fits within the limit. |
| CsvStream.FieldsAreRead | rust/velr-cli/src/import/csv.rs:315-448 | The fields of a record that is read stand in its bytes one behind another with a delimiter between each two, and each is quoted, or says all its bytes, by its first bytes. |
| CsvStream.NextRecordStops | rust/velr-cli/src/import/csv.rs:104-216 | Where no record is read, only blank lines are left, or the record behind them is refused, under the number of its first line, for the reason that the error gives. |
| Utf8.ValidMeansText | rust/velr-cli/src/import/csv.rs:207-208 | The bytes accepted as text are exactly the encodings of sequences of Unicode scalar values, by section 3 of RFC 3629. |
| CsvPrinting.WriteCsvRow | rust/velr-cli/src/runtime/table.rs:167-180 | A row is printed as its fields, quoted when needed, with commas and a line feed. |
| CsvPrinting.CsvEscape | rust/velr-cli/src/runtime/table.rs:182-199 | A field of other bytes than comma, quote, carriage return and line feed is printed as it is; any other stands between quotes, with its quotes doubled. |
| CsvPrinting.PrintedRowsReadBack | rust/velr-cli/src/runtime/table.rs:146-199 | Any number of printed rows reads back as the same rows, each field with its quoting. |
| CsvPrinting.RowReadsBackExactly | rust/velr-cli/src/import/csv.rs:315-448 | For every reader with comma, quote and multiline, with backslash escapes or without: a printed row reads back if and only if it is not one empty field, does not put a byte order mark outside quotes first in the stream, and, for a reader with escapes, no field that is printed in quotes has a backslash that is last or is followed by a quote or a backslash. |
| CsvPrinting.BackslashesAreNotKept | rust/velr-cli/src/import/csv.rs:386-394 | The field of a backslash and a quote, printed and read with backslash escapes: no record, and the quoted field is unclosed. |
| CsvPrinting.BlankRowsAreSkipped | rust/velr-cli/src/import/csv.rs:151-206 | A row of one empty field is a blank line and gives no record. |
| CsvPrinting.MarkIsLost | rust/velr-cli/src/import/csv.rs:151-206 | A mark in front of the first record is dropped: the record is that of the row without it. |
| CsvFormat.RecordsShrink | rust/velr-cli/src/import/csv.rs:104-216 | Every record consumes input, so reading all of them ends. |
| Inflater.ReadsInOrder | rust/velr-cli/src/import/input.rs:365-402 | On every schedule the consumer has a prefix of the promised bytes, and all of them before the end, the error or the panic is reported. |
| Inflater.PromiseIsAll | rust/velr-cli/src/import/input.rs:295-345 | The promised bytes are all bytes of the input; after a panic of the worker, the full buffers before it. |
| Inflater.ThreeBuffersSuffice | rust/velr-cli/src/import/input.rs:276-302 | Never more than three buffers exist, giving one back never blocks, and the worker finds one until the reader closes down. |
| Inflater.CallsBringBytes | rust/velr-cli/src/import/input.rs:365-402 | A call of `read` that returns brings between one byte and what was asked for, or is the last. |
| Inflater.NeverStuck | rust/velr-cli/src/import/input.rs:347-363 | No reachable state is stuck, including a drop at any moment, and the worker has ended when the reader is done or gone. |
| Inflater.RunsAreFinite | rust/velr-cli/src/import/input.rs:404-408 | Every run has a bound on its steps, so every call and every drop returns. |
| Inflater.FedDelivers | rust/velr-cli/src/import/input.rs:306-338 | A read of the decompressor, short, interrupted, ended or failed, does not change what the worker delivers. |
| ShapeCounting.ShapeCounts.AddCount | rust/velr-cli/src/offline_import/native.rs:228-248 | Adding to a key changes the total of that key alone, by that much, whether it was in memory, is new, or the entries are spilled first; it fails, changing nothing, exactly on overflow. |
| ShapeCounting.ShapeCounts.Flush | rust/velr-cli/src/offline_import/native.rs:250-281 | Spilling empties the entries and keeps every total. |
| ShapeCounting.BatchShapeCounts.Increment | rust/velr-cli/src/offline_import/native.rs:297-316 | Spilled, hashed and held counts together grow by the one key; it fails only when a count is full. |
| ShapeCounting.BatchShapeCounts.Flush | rust/velr-cli/src/offline_import/native.rs:318-326 | After a batch nothing is held and every total is the same. |
| ShapeImport.Importer.AppendNodes | rust/velr-cli/src/offline_import/native.rs:693-824 | Exactly the nodes whose IDs are new, in the graph and in the batch, are stored, each with its group and with one property row for each column that is not null; the total of a group grows by the number of them; and at the end of the batch all counts are those of the stored rows. |
| ShapeImport.Importer.AppendEdges | rust/velr-cli/src/offline_import/native.rs:930-1045 | Each relationship is stored from its start to its end under the next number, with one property row for each column that is not null: for any two nodes the stored relationships from the one to the other grow by the rows from the one to the other, and the total of a kind between two groups by the rows that start in the one and end in the other. At the end of the batch all counts are those of the stored rows. |
| ImportedRows.EdgesStand | rust/velr-cli/src/offline_import/native.rs:1000-1040 | What a batch of relationships stores, row by row: number, kind, start, end and properties. |
| ImportedRows.EdgeTotals | rust/velr-cli/src/offline_import/native.rs:1012-1017 | The total of a kind between two groups grows by the number of rows from the one to the other. |
| ImportedRows.NodesStand | rust/velr-cli/src/offline_import/native.rs:747-796 | What a batch of nodes stores, row by row: ID, group and properties. |
| ImportedRows.NodeTotals | rust/velr-cli/src/offline_import/native.rs:747-769 | The total of a group grows by the number of its nodes that are stored. |
| ShapeImport.Importer.Finish | rust/velr-cli/src/offline_import/native.rs:1085-1092 | The aggregates published at the end are those of the stored graph. |
| ImportedRows.NodeGrows | rust/velr-cli/src/offline_import/native.rs:769-796 | Storing a node adds its key and changes that of no other row. |
| ShapeQueries.FinishIsBackfill | rust/velr-cli/storage/src/schema.rs:739-812 | For every row of the aggregates: summing per-group totals over the members of the groups gives what the backfill counts by joining every property and relationship to its nodes, and the same rows are there. |
| ShapeQueries.NodeScopeCounts | rust/velr-cli/storage/src/schema.rs:739-746 | The count of a label is the number of nodes whose groups have it as a member; only nodes of groups without members count for the label 0 by themselves. |
| ShapeQueries.TextsTellShapesApart | rust/velr-cli/src/offline_import/native.rs:347-375 | Grouping by class and tag numbers and printing them gives each printed row once. |
| ShapeQueries.CountsAreRows | rust/velr-cli/src/offline_import/native.rs:347-375 | A sum of per-key counts over some keys is the number of rows with those keys. |

## Left out

- TreeWriting.Tree: for a root over one of its own overflow pages nothing is promised; what is read then depends on the bytes of the root.
- TreeWriting.Tree: with a shared allocator it does not say when it fails, since other writers decide what is left.
- PageAllocation.BlockAllocator.Grant: the compare-and-exchange loop is one step that sees any later counter value; `AllocatorProtocol` models the loop.
- AllocatorProtocol.PagesStayPartitioned: atomics are sequentially consistent, and pushing a returned range and counting it is one step under the lock.
- AllocatorProtocol.FinishedRunIsComplete: a buffered writer flushes only when it gives its tail back or is told to, not when its buffer happens to be full.
- Publishing.TreesArePublished: that the writer's image holds the tree's pages is a condition here; `WrittenTreeIsPublished` derives it from the steps the writer took.
- CsvStream.RecordIsNext: where a mark or blank lines are passed over, five bytes of the record limit are left for them.
- TreeContents.ParentIsRead: the reader takes only packed pages, with each cell ending where the one before it starts; files of other writers may have gaps.
- Freelist.Finish: of page 1 only the header fields used are modelled, and setting the file length is not.
- Sampler.IndexStatistics.Finish: counts are numbers, not printed text; the hash seed is arbitrary; that SQLite's own ANALYZE would choose the same samples is not claimed.
- IntegerIds.IntegerIdMap.Insert: pages and directories are owned values instead of boxed objects, bitmap words are sequences of bits, and the table behind the map never fails.
- RadixMaps.DirectorySlot: reserving memory exactly never fails and never reserves more.
- ExternalSort.SortKeys: keys are numbers; buffering of runs and the threads of the workers are not modelled, and the heap of a merge is a search for its least entry.
- DirectMerge.MergeDirect: runs are shorter than 2^60 rows.
- RecordCodec.RecordRoundTrip: values are shorter than 2^62 bytes and fewer than 2^32.
- KeyCodec.NewCodec: the version of the spool file and its length check are not modelled.
- CsvReading.CsvReader.NextBorrowed: an input error is one position behind which reading fails; other input errors and interrupted reads of the file are not modelled.
- Inflater.ReadsInOrder: threads and channels are steps of one machine; that the operating system runs each thread again is not modelled.
- ShapeCounting.ShapeCounts.Flush: the spill tables are one map, and their sums do not overflow.
- Runs.Extend: the counters updated in the cited lines are `Sampler.IndexStatistics.Accumulate`; this is the fact about runs they rest on.
- ShapeImport.Importer.AppendNodes: a duplicate is skipped the same way on both storage paths; the path of the code that writes bulk bodies does not check for it at that place.
- ShapeImport.Importer.AppendNodes: validation of rows, labels and IDs happens before; a failed batch leaves the importer unusable and its counts unsaid.
- ShapeQueries.FinishIsBackfill: SQL is the meaning of its joins and groups; the group members are a set of pairs, as their primary key says.
- Files, seeks, flushes, temporary directories, profiling, memory pressure and cleanup threads: input and output plumbing.
- Publishing a finished database, ZIP and gzip containers, globbing: operating-system and library behaviour.
- SQLite itself: its tables are maps and sequences here.
- Text indexes, header and property typing, options, manifest and the interactive shell: wide but shallow.
- The natural ordering of file names: it is not transitive with leading zeros, so no order is claimed.
- Splitting memory between concurrent sorts, record framing of the bulk body, the value arena and the ID cache: simpler than what is modelled.
