# libmmp, modelled and proved

A Dafny model of the containers and parsers of libmmp, a C library: what its functions do to pages,
nodes, arrays and strings, and what follows for whole runs of them.

Each C file has a file with its functions on values or sequences and, where the code changes things in
place, one with classes whose methods are proved to do the same to pages, nodes and arrays. Theorems are
about the values and hold for the methods by their contracts.

- **B-tree** (`BTreePages`, `BTreeShape`, `BTreeInsert`, `BTreeDescent`, `BTreeLimit`, `BTreeOutcome`,
  `BTreeRefusal`, `BTreeRuns`, `BTree`, `BTreeFill`): pages addressed by file offset, split on the way down.
  The code loses a child offset when it inserts a separator anywhere but last and when it splits an inner
  page. It is modelled as it is; the exact
  condition under which an insertion is right is proved, what it stores and returns where it is not, and
  the exact length of increasing runs that the tree carries.
- **Paged array with a mapping cache** (`MapCache`, `BArrayPages`, `BArrayProbe`, `BArray`, `BArrayRun`): agreement
  with a map over every run, first-in-first-out mapping and eviction, reopening, and for exactly which
  indexes the search inside the page table and the search inside a page come to an end.
- **Doubly linked list** (`ListSpec`, `List`, `ListRun`): nodes with both links, sorted insertion (descending),
  deletion, both traversals, selection sort (ascending).
- **Priority queue** (`PrioQ`, `PrioQRun`): a binary heap in a growing array, whose pop compares with slots
  behind the last element; exactly when that disturbs it.
- **Hash table** (`HtabSpec`, `Htab`, `HtabRun`): chained buckets against a map, and exactly when a deletion
  removes one key. The callers pass UINT_MAX as an `int` limit to the hash, so that all keys share one
  bucket.
- **Option scanner** (`GetoptSpec`, `Getopt`, `GetoptRun`): one option a call, against a recursive parse and
  against command lines written down from what they mean.
- **Date parser** (`DateSpec`, `DateCompose`, `DateRead`, `DateRun`, `DateWrite`, `DateForms`, `DateParse`,
  `DateBranches`, `DateParts`, `DateLimits`, `DateConversions`, `DateTexts`, `Date`): format strings as
  directives, what strftime writes is read back, numbers outside their limits are refused, every conversion
  by its letter and its texts, and the three date forms of section 3.3.1 of RFC 2616 through mmp_parse_date.

`Status` has the return codes. `dafny verify dfyconfig.toml` checks the whole project.

## Model

| member | source | states |
|---|---|---|
| `BTreeShape.FindIffStored` | src/mmp_btree.c:197-243 | on every B-tree a search finds a value under a key if and only if some page stores it there; so no key is stored twice |
| `BTreeShape.SearchPath` | src/mmp_btree.c:197-243 | the pages a search passes, from the root down: each scan answers, goes on to the next page, or ends the search; the path is finite |
| `BTreeShape.RouteUp` | src/mmp_btree.c:212-223 | a key between the ends of a page leads the scan of its parent back to that page, and is not in the parent |
| `BTreeInsert.InsertedPageHas` | src/mmp_btree.c:245-256 | shifting a record in adds exactly that record to the page |
| `BTreeInsert.InsertedKeysOk` | src/mmp_btree.c:258-275 | a key inserted where the scan stops keeps the page's keys strictly increasing, in its interval and within the capacity |
| `BTreeInsert.SplitStored` | src/mmp_btree.c:277-301 | a split moves records between pages without losing or adding any, whatever happens to the links |
| `BTreeInsert.HalvesKeysOk` | src/mmp_btree.c:287-300 | both halves of a full page are ordered and lie on their side of the separator |
| `BTreeInsert.LastSplitLabelled` | src/mmp_btree.c:277-301 | splitting a full leaf that is its parent's last child leaves a B-tree: order, capacity, parent links and leaf depth |
| `BTreeInsert.RootSplitLabelled` | src/mmp_btree.c:288-291 | splitting a full root leaf leaves a B-tree, one level higher |
| `BTreeInsert.RunCorrect` | src/mmp_btree.c:317-358 | an insertion that splits nothing but the root leaf or a last-child leaf adds exactly the new binding, refuses a key that is there (map unchanged, even after a split) and leaves a B-tree |
| `BTreeDescent.StepInZone` | src/mmp_btree.c:317-358 | one pass of the insertion on any B-tree, harmful split or not, goes down one level or stops, and stays inside the pages |
| `BTreeDescent.FullAct` | src/mmp_btree.c:318-358 | on the way down a B-tree no record is inserted in a full page, even where the split before filled the parent |
| `BTreeDescent.InsertPasses` | src/mmp_btree.c:310-358 | all the passes of an insertion, so that it terminates |
| `BTreeLimit.InnerLeafDamages` | src/mmp_btree.c:249-254 | splitting a full leaf that is not its parent's last child drops the parent's last child, for good |
| `BTreeLimit.InnerPageDamages` | src/mmp_btree.c:297-299 | splitting a full inner page leaves the right half without its last child, for good |
| `BTreeLimit.InsertCorrectIff` | src/mmp_btree.c:245-358 | from every B-tree, for every key: the insertion does what it should if and only if the pages on the way have room, or the last one is a leaf that is the root or a last child; in all other cases it leaves no B-tree |
| `BTreeLimit.InsertThenFind` | src/mmp_btree.c:197-358 | after such an insertion a search finds the new value under the new key and, under every other key, what it found before |
| `BTreeOutcome.InsertTold` | src/mmp_btree.c:310-358 | from every B-tree, for every key, harmful splits or not: the insertion returns MMP_ERR_OK with the record stored beside all that were stored, or MMP_ERR_PARAMS with nothing added for a key that is stored |
| `BTreeRefusal.InsertRefusesIff` | src/mmp_btree.c:287-358 | a key is refused if and only if it is stored and the way down to it leaves no full page by its last child; a stored key that is not refused is stored a second time |
| `BTreeRefusal.SecondKeyTwice` | src/mmp_btree.c:287-358 | the smallest tree with such a key: with one key a page, key 2 behind key 1 is taken once more |
| `BTreeRuns.IncreasingRunIff` | src/mmp_btree.c:277-358 | a strictly increasing run keeps the B-tree all the way if and only if it has at most R+1+(R-1)*(R/2+1) keys |
| `BTreeRuns.IncreasingRunFinds` | src/mmp_btree.c:197-358 | such a run succeeds throughout, and afterwards exactly its keys are found, each with its own value |
| `BTreeRuns.SecondKeyLost` | src/mmp_btree.c:245-301 | the smallest run that is one key too long: with one key a page, inserting 3 behind 1 and 2 succeeds and key 2 is not found any more |
| `BTree.Page.constructor` | src/mmp_btree.c:69-125 | a new page has no record, no parent and R+1 slots with an invalid offset |
| `BTree.BTree.constructor` | src/mmp_btree.c:143-195 | on an empty file: one empty page, R from the page size |
| `BTree.BTree.CreatePage` | src/mmp_btree.c:82-141 | the file and the page table grow by one empty page, at its offset |
| `BTree.BTree.PageFromOff` | src/mmp_btree.c:197-212 | no page for the invalid offset, and the page at that offset for any other |
| `BTree.InsertInPos` | src/mmp_btree.c:245-256 | the page becomes the shifted page, with both offsets in place and the old last offset overwritten or kept exactly as the move of n_el-pos records does |
| `BTree.InsertInPage` | src/mmp_btree.c:258-275 | the same at the place the scan finds; a key that is there is refused with MMP_ERR_PARAMS, exactly then, and leaves the page as it is |
| `BTree.BTree.Split` | src/mmp_btree.c:277-315 | the tree becomes the split tree, with its separator in the parent, both halves and, for the root, a new root; or is left alone where the split refuses |
| `BTree.BTree.Search` | src/mmp_btree.c:215-243 | on any B-tree: terminates with the value stored under the key, or not found, and leaves the tree as it was |
| `BTree.BTree.Insert` | src/mmp_btree.c:317-358 | on any B-tree: terminates, stays inside the pages, leaves the tree and the return code that the theorems on insertion are about, and so returns MMP_ERR_OK with the record stored or MMP_ERR_PARAMS with nothing added; all pages added are new |
| `BTreeFill.Fill` | src/mmp_btree.c:310-358 | on the tree in memory: every insertion of an increasing run that the tree carries succeeds |
| `BTreeFill.FillAndSearch` | src/mmp_btree.c:197-358 | behind such a run, in any number of searches, exactly its keys are found, each with its own value |
| `MapCache.Cache.IndexOf` | src/mmp_barray.c:221-229 | the place of the page's first entry, or UINT_MAX |
| `MapCache.Cache.IsCached` | src/mmp_barray.c:230-235 | true exactly for the pages with an entry |
| `MapCache.Cache.LessHit` | src/mmp_barray.c:236-245 | the page of the first entry among those with the fewest hits |
| `MapCache.Cache.Remove` | src/mmp_barray.c:246-257 | exactly the page's first entry goes, and the later ones move down |
| `MapCache.Cache.Hit` | src/mmp_barray.c:258-268 | one more hit for a page with an entry, and a new last entry with one hit for any other |
| `MapCache.EvictionIsFifo` | src/mmp_barray.c:236-291 | where every cached page was hit once, evicting the least hit page for a new one is first in, first out, and leaves every page hit once |
| `MapCache.AdditionIsFifo` | src/mmp_barray.c:258-291 | below the limit a new page joins the queue |
| `BArrayPages.AppendSortedIff` | src/mmp_barray.c:294-327 | an insertion keeps the indexes increasing if and only if its index is above the last one |
| `BArrayPages.AcceptsIff` | src/mmp_barray.c:301-314 | what is refused would break the order; what is accepted breaks it exactly where the last page is full and the index is not above its last one |
| `BArrayPages.AppendMaps` | src/mmp_barray.c:317-326 | it adds exactly one binding |
| `BArrayPages.DeletedMaps` | src/mmp_barray.c:392-404 | clearing one present bit takes exactly one index out of the map |
| `BArrayPages.RebuiltIff` | src/mmp_barray.c:165-174 | reopening finds for a page the count, start and end of the running array if and only if no record of the page was deleted |
| `BArrayPages.RebuiltIs` | src/mmp_barray.c:165-174 | whatever was deleted, reopening finds for a page how many records are there, and the first and the last of them |
| `BArrayProbe.FirstPageCovers` | src/mmp_barray.c:329-343 | the page search_page takes is the one that covers the index, or else the first one above it |
| `BArrayProbe.SearchPageIff` | src/mmp_barray.c:329-343 | in every sorted table the loop of search_page probes a place outside the table if and only if the index lies behind the last page; for any other it ends at that page |
| `BArrayProbe.OneBehindTheEnd` | src/mmp_barray.c:334-342 | a table of one page, and an index for which it is read behind its end |
| `BArrayProbe.BetweenNext` | src/mmp_barray.c:336-341 | one round of its loop in 32-bit unsigned arithmetic, mid-1 included: within bounds, and closer to that page |
| `BArrayProbe.EndsNext` | src/mmp_barray.c:362-368 | one round of the loop in a page: closer, for a stored index, and for a gap whose halvings come out at one record |
| `BArrayProbe.GapLoops` | src/mmp_barray.c:360-373 | for an index in any other gap the loop in a page goes on forever, without a hit and without leaving the page |
| `BArrayProbe.StopsIff` | src/mmp_barray.c:345-373 | for every index between the ends of a page the loop ends after some number of probes if and only if the index has a record or lies in a gap whose halvings come out at one record |
| `BArrayProbe.ReopenedFindsIff` | src/mmp_barray.c:165-373 | a page reopened looks at as many slots as it has records that are there: the search for one of these comes to an end, and finds it if and only if its slot is among them |
| `BArrayProbe.ThirdIsLost` | src/mmp_barray.c:165-373 | of three records the second one deleted: the third is there, and not found after reopening |
| `BArrayProbe.GapsOkIff` | src/mmp_barray.c:360-373 | every gap of a page of n records is reported absent if and only if n+1 or n+2 is a power of two |
| `BArrayProbe.FourRecordsLoop` | src/mmp_barray.c:360-373 | the shortest page with an index for which the loop does not end |
| `BArray.BArray.constructor` | src/mmp_barray.c:83-105 | an array on an empty file is empty, with nothing mapped |
| `BArray.BArray.Reopen` | src/mmp_barray.c:149-180 | on a file written before: nothing mapped, every page entry as rebuilt, and with no record deleted the whole array as it was |
| `BArray.RebuildPage` | src/mmp_barray.c:165-176 | the inner loop of that, for one page: the entry tells of the records that are there, and is that of the running array exactly where none was deleted |
| `BArray.FileOfRunning` | src/mmp_barray.c:294-327 | what a running array has written can be reopened at any time |
| `BArray.BArray.InsertNewPage` | src/mmp_barray.c:186-211 | the file and the table grow by one page without records |
| `BArray.BArray.MapPage` | src/mmp_barray.c:272-291 | the page is mapped, the oldest mapped page goes when the cache is full, the cached pages stay distinct, within the limit and exactly the mapped ones, and no record changes |
| `BArray.BArray.Insert` | src/mmp_barray.c:294-327 | accepts an index by what the last page allows, appends its record, and maps the last page; refuses any other and leaves all records and the mapped pages as they were |
| `BArray.SearchHeads` | src/mmp_barray.c:334-342 | for every table and index: the loop ends, at what the recursion SearchPageIff is about gives, a probe outside the table included |
| `BArray.BArray.FindPage` | src/mmp_barray.c:329-343 | for every index: UINT_MAX for an array without pages, no answer for an index behind the last page, and that page otherwise; nothing changes |
| `BArray.SearchableIff` | src/mmp_barray.c:329-373 | an index meets the condition of a search if and only if both loops of the search come to an end, the first one inside the table |
| `BArray.BArray.SearchInPage` | src/mmp_barray.c:345-373 | the slot of the record for the index if the page has one, mapping the page exactly if the index lies between its ends |
| `BArray.BArray.Search` | src/mmp_barray.c:376-390 | the data that the array maps the index to, and nothing for an index it does not map |
| `BArray.BArray.Delete` | src/mmp_barray.c:392-404 | exactly the index goes from the map and every record stays in its place; an index that is not mapped is refused |
| `BArrayRun.Run` | src/mmp_barray.c:272-404 | every run of insertions with increasing indexes, as many as the file has room for, and of any number of searches and deletions of inserted indexes, answers like a map, for every page capacity and every cache capacity from 1 on; the pages mapped in the end are those a first-in-first-out queue keeps of the pages asked for, where the page of an index is the number of insertions before its own, divided by the page capacity |
| `BArrayRun.RunReopened` | src/mmp_barray.c:128-180 | closing the array and opening its file again in between changes no answer, as long as nothing was deleted before; the pages mapped in the end are those asked for since |
| `BArrayRun.MappedIsQueue` | src/mmp_barray.c:215-291 | that queue never holds more pages than the cache has entries, none twice, and always the page asked for last |
| `List.List.AddData` | src/mmp_list.c:59-74 | the data comes in front; next and prev stay inverse, head and tail the ends, nelems the length |
| `List.List.AddDataSorted` | src/mmp_list.c:77-109 | the data comes in before the first element that is not above it, in each of the three ways of linking a node in |
| `List.List.DelElem` | src/mmp_list.c:112-127 | exactly that element goes, and NULL is returned |
| `List.List.DelElemByData` | src/mmp_list.c:130-136 | the first element with the data goes, if there is one |
| `List.List.FindData` | src/mmp_list.c:139-148 | the first element with the data, or NULL if there is none |
| `List.List.FindDataLambda` | src/mmp_list.c:151-162 | the first element that compares equal, or NULL |
| `List.List.FindDataSorted` | src/mmp_list.c:165-178 | what the search that gives up early finds |
| `List.List.LambdaDataExt` | src/mmp_list.c:200-208 | meets the data in order |
| `List.List.LambdaDataExtRev` | src/mmp_list.c:211-219 | meets the data in the exact reverse order, over the prev links |
| `List.SwapElems` | src/mmp_list.c:222-229 | the two nodes exchange their data |
| `List.List.FindMin` | src/mmp_list.c:231-240 | the first of the lowest elements from there on |
| `List.List.SortByData` | src/mmp_list.c:243-251 | ascending order, a permutation of the data, and a chain of nodes that is not touched |
| `ListSpec.InsertKeepsDescending` | src/mmp_list.c:77-109 | for every total preorder, sorted insertion keeps a list descending |
| `ListSpec.FindSortedIsScan` | src/mmp_list.c:151-178 | in a descending list giving up early loses nothing |
| `ListSpec.SwappedSettles` | src/mmp_list.c:242-251 | one round of the selection sort settles one more place and keeps the multiset of data |
| `ListRun.SortedRunDescending` | src/mmp_list.c:77-127 | every run of sorted insertions and deletions leaves a descending list |
| `ListRun.Run` | src/mmp_list.c:59-219 | every run of the three operations on a new list refines the same run on a sequence: forward traversal, reversed backward traversal, count |
| `ListRun.FindBothWays` | src/mmp_list.c:151-178 | after every run of sorted insertions and deletions both ways of finding return the same node |
| `PrioQ.RootIsMax` | src/mmp_prioq.c:168-179 | the first element of a heap has the highest priority |
| `PrioQ.SiftUpStep` | src/mmp_prioq.c:110-116 | one swap with the parent moves the only disorder up |
| `PrioQ.SiftDownStep` | src/mmp_prioq.c:124-144 | one swap with the larger child moves the only disorder down |
| `PrioQ.SunkIff` | src/mmp_prioq.c:120-145 | whatever the slots behind the end hold, sort_root keeps the elements if and only if none it reads is above what it is compared with, and then leaves a heap |
| `PrioQ.PopIff` | src/mmp_prioq.c:168-179 | a pop takes out an element of the highest priority, and leaves a heap of exactly the others if and only if no slot behind the end disturbs it |
| `PrioQ.FreedComesBack` | src/mmp_prioq.c:120-179 | the shortest pop that is disturbed: of two elements, the node just freed, which the swap has put behind the end and which still reads as it did, comes back in the place of the other |
| `PrioQ.LowestIsQuiet` | src/mmp_prioq.c:124-139 | where nothing behind the end is above any element, nothing is disturbed |
| `PrioQ.InsertedFirst` | src/mmp_prioq.c:105-165 | an element comes in first if and only if it is above the one that is first; one of equal priority waits |
| `PrioQ.SunkFirst` | src/mmp_prioq.c:120-145 | which of the first three elements an undisturbed sort_root leaves first; of two children of equal priority the right one |
| `PrioQ.PoppedFirst` | src/mmp_prioq.c:168-179 | who is first after an undisturbed pop |
| `PrioQ.PrioQ.Enlarge` | src/mmp_prioq.c:74-85 | ten more slots, the same elements |
| `PrioQ.PrioQ.SortLast` | src/mmp_prioq.c:105-117 | what rising from the last place leaves; out of order only there, that is a heap of the same elements |
| `PrioQ.PrioQ.SortRoot` | src/mmp_prioq.c:120-145 | the comparisons as they are, with whatever the slots behind the end hold: what SunkIff is about |
| `PrioQ.PrioQ.Insert` | src/mmp_prioq.c:148-165 | a heap with exactly one more element |
| `PrioQ.PrioQ.Pop` | src/mmp_prioq.c:168-179 | takes out the first element and leaves what PopIff is about, for whatever the slots behind the end hold; an empty queue is reported empty |
| `PrioQRun.PopsDescend` | src/mmp_prioq.c:168-179 | pops with no insertion in between come in non-increasing priority, and leave nothing above the first of them |
| `PrioQRun.Conserved` | src/mmp_prioq.c:148-179 | over every run, what was inserted is what was popped and what is left |
| `PrioQRun.RunIff` | src/mmp_prioq.c:148-179 | a whole run conserves its elements, with every pop taking one of the highest priority, if and only if none of its pops is disturbed |
| `PrioQRun.Run` | src/mmp_prioq.c:36-179 | every run on a new queue, whatever its pops read behind the end, is a run of the operations on sequences; undisturbed, what was inserted is what was popped and what is left |
| `HtabSpec.LookupAgrees` | src/mmp_htab.c:101-109 | a lookup in chains with every key in its own bucket once answers like the map they denote |
| `HtabSpec.InstallAgrees` | src/mmp_htab.c:123-143 | an installation keeps the chains like that and binds the key |
| `HtabSpec.DeleteDenotes` | src/mmp_htab.c:146-161 | a deletion keeps the chains like that, and takes away its key or, where that was first of several in its chain, the whole chain |
| `HtabSpec.DeleteAgreesIff` | src/mmp_htab.c:154-157 | a deletion removes exactly its key if and only if the key is not there, is not first in its chain, or is alone in it |
| `HtabSpec.LookupNzIff` | src/mmp_htab.c:112-120 | a lookup by the hash of a part of the key finds what was installed if and only if both hashes are the same, or there is nothing to find |
| `HtabSpec.HashIsWeighted` | src/mmp_htab.c:78-86 | the hash is the sum of the codes of the first max characters, each times 31 to the number of those behind it, modulo 2 to the 32; characters behind them do not matter |
| `HtabSpec.HtabHash` | src/mmp_htab.c:78-86 | that sum, modulo the size, for signed or unsigned characters; with UINT_MAX passed as an int no character is hashed and the bucket is 0 |
| `Htab.Htab.constructor` | src/mmp_htab.c:22-36 | an empty table |
| `Htab.Htab.Find` | src/mmp_htab.c:89-98 | the element of the key in the chain, or NULL |
| `Htab.Htab.Lookup` | src/mmp_htab.c:101-109 | its value, or NULL |
| `Htab.Htab.LookupNz` | src/mmp_htab.c:112-120 | the same in the bucket of the hash of a part of the key |
| `Htab.Htab.Install` | src/mmp_htab.c:123-143 | the chains after installing: a new first element, or a new value in place; next and prev stay inverse |
| `Htab.Htab.Delete` | src/mmp_htab.c:146-161 | the chains after deleting, with the bucket set to np->prev; next and prev stay inverse |
| `HtabRun.StepAgreesIff` | src/mmp_htab.c:101-161 | one operation answers like the map, and keeps the table at the map if and only if it is no unsafe deletion |
| `HtabRun.RunAgreesIff` | src/mmp_htab.c:101-161 | a whole run stays at the map all the way if and only if all its deletions are safe |
| `HtabRun.InstallsAgree` | src/mmp_htab.c:101-143 | every run of installations and lookups answers like a map |
| `HtabRun.NewestTakesAll` | src/mmp_htab.c:123-161 | deleting the key installed last takes every key of its bucket with it |
| `HtabRun.NewestTakesWholeTable` | src/mmp_htab.c:78-161 | with the library's own hash of whole keys, that is every key of the table |
| `HtabRun.Run` | src/mmp_htab.c:22-161 | every run on a new table, for every size from 1 on and every hash below it, is such a run |
| `GetoptSpec.RenderUndone` | src/mmp_getopt.c:42-83 | every command line written down from letters, known or not, and options with attached or separate arguments is taken apart into what they mean, in front of nothing, an empty argument, a lone dash, two dashes or an argument that does not begin with a dash |
| `GetoptSpec.KnownIff` | src/mmp_getopt.c:57 | every character of opts but the colon is an option |
| `GetoptSpec.TakesArgIff` | src/mmp_getopt.c:65 | one with an argument exactly where a colon follows its first place |
| `GetoptSpec.OperandsUntouched` | src/mmp_getopt.c:52-55 | behind -- operands come through whatever they look like |
| `GetoptSpec.MissingArgument` | src/mmp_getopt.c:68-71 | an option whose argument is missing at the end gives ?, with its letter in optopt and optarg as it was |
| `Getopt.Getopt.XGetopt` | src/mmp_getopt.c:42-83 | each call gives the next event of the recursive parse, with optopt and optarg, and moves (optind, sp) on lexicographically; at EOF optind is at the operands |
| `Getopt.Getopt.TakeLetter` | src/mmp_getopt.c:56-83 | the same for the letter at sp: illegal letters, flags, options |
| `Getopt.Getopt.TakeArgument` | src/mmp_getopt.c:65-74 | the same for an option with an argument: attached, separate or missing |
| `GetoptRun.ScanAll` | src/mmp_getopt.c:42-83 | calling until EOF terminates, with exactly the events of the recursive parse and its operands at optind, for every argv and opts |
| `GetoptRun.ScanWritten` | src/mmp_getopt.c:42-83 | so a written command line comes back as it was meant, through the calls, and what follows its options is left |
| `GetoptRun.ScanMissing` | src/mmp_getopt.c:42-83 | and so does one that ends with an option whose argument is missing |
| `Date.ConvNum` | src/mmp_date.c:73-93 | what ConvNumTakes is about, by the loop |
| `DateLimits.ConvNumTakes` | src/mmp_date.c:73-93 | on every text: no number, or all the digits that the upper limit allows, refused if and only if they make a number outside the limits |
| `Date.FindString` | src/mmp_date.c:95-113 | the first full name that matches in any case, or else the first abbreviation |
| `DateRead.ConvNumReads` | src/mmp_date.c:73-93 | a numeral within the limits, as long as they allow or with no digit behind, is read to its end with its value |
| `DateRead.FindStringReads` | src/mmp_date.c:95-113 | a weekday or month, in full or abbreviated and in any case, is found where it is in the table |
| `DateRead.DoReads` | src/mmp_date.c:124-557 | every conversion that stands for a field reads back what is written for it |
| `DateRun.RoundTrip` | src/mmp_date.c:115-560 | for every format of whole fields, and every text that fits it piece by piece: read to the end, with the mentioned fields given back and the others left alone |
| `DateLimits.RunWithin` | src/mmp_date.c:115-560 | for every text and every format of whole fields: a parse that does not fail leaves the fields it gives inside their limits and the others as they were |
| `DateLimits.ParsedIsDate` | src/mmp_date.c:599-647 | for every text: what mmp_parse_date takes is a date, with second, minute, hour, day, month, weekday and year within their limits, and a day of the year left as the memory had it |
| `DateWrite.StrftimeUndone` | src/mmp_date.c:115-576 | xstrptime undoes strftime for every format of whole fields whose directives keep apart |
| `DateParts.CenturyThenYear` | src/mmp_date.c:224-234 | %C%y reads every year from 0 to 9999 from its two halves |
| `DateParts.YearThenCentury` | src/mmp_date.c:369-384 | so does %y%C |
| `DateParts.TwoCallsLoseCentury` | src/mmp_date.c:224-384 | %C and %y in two calls read the same as in one if and only if the year is one from 1969 to 2068 |
| `DateParts.Clock12Undone` | src/mmp_date.c:184-285 | %r gives the hour of the day back from the clock of twelve |
| `DateCompose.ScanAppend` | src/mmp_date.c:115-204 | parsing by f1+f2 is parsing by f1 and then by f2 on the rest, with split_year carried along |
| `DateCompose.TwoCallsAreOne` | src/mmp_date.c:115-204 | two calls are one call where not both formats have a part of a year |
| `DateCompose.SplicedIn` | src/mmp_date.c:162-204 | a complex conversion means what its expansion, of which the theorems on %c, %D, %F, %R, %r and %T tell the texts, means in its place, where the expansion has no part of a year or nothing around it has |
| `DateSpec.ExpansionIsPlain` | src/mmp_date.c:162-204 | no expansion has a complex conversion in it, so the recursion ends |
| `DateConversions.ModifierIff` | src/mmp_date.c:66-384 | for every conversion: a modifier makes no difference in front of the letters it is allowed for, and is refused in front of all others |
| `DateConversions.AlikeRead` | src/mmp_date.c:163-384 | the eleven letters that read as another one does |
| `DateConversions.NoConversion` | src/mmp_date.c:140-557 | every letter that is no conversion is refused |
| `DateConversions.MonthDayYearUndone` | src/mmp_date.c:169-204 | %D and %x read month, day and the year without its century, in this order, with slashes |
| `DateConversions.YearMonthDayUndone` | src/mmp_date.c:174-177 | %F reads the year in full, the month and the day with dashes |
| `DateConversions.HourMinuteUndone` | src/mmp_date.c:179-182 | %R reads HH:MM |
| `DateConversions.HourSecondUndone` | src/mmp_date.c:189-204 | %T and %X read HH:MM:SS |
| `DateConversions.TwelveHoursUndone` | src/mmp_date.c:184-187 | %r reads the clock of twelve with its half of the day |
| `DateConversions.AsctimeUndone` | src/mmp_date.c:165-167 | %c reads asctime's text |
| `DateConversions.HalfDayIff` | src/mmp_date.c:279-285 | AM or PM is read if and only if the hour is below 12 |
| `DateConversions.TwelveHourIff` | src/mmp_date.c:249-259 | of the two-digit numbers %I and %l read those from 1 to 12, and of those from 20 on the first digit |
| `DateConversions.WeekdayNumberIff` | src/mmp_date.c:333-342 | %u reads 1 to 7 and %w 0 to 6, with 7 for Sunday in the former |
| `DateConversions.WeekNumber` | src/mmp_date.c:321-361 | %U, %W and %V check a number up to 53 and change no field; of those from 60 on they read the first digit |
| `DateConversions.WeekYear` | src/mmp_date.c:344-348 | %g reads two digits and changes no field |
| `DateConversions.WeekYearInFull` | src/mmp_date.c:350-356 | %G skips a character and the digits behind it |
| `DateConversions.CenturyTwiceIff` | src/mmp_date.c:224-384 | a century read again behind its year leaves the year if and only if that is from 1900 on or a whole century, since the remainder truncates; any other comes out a hundred years early |
| `DateTexts.NamesRead` | src/mmp_date.c:95-113 | each name of a weekday or month, in full or in three letters and in any case, is read for its number |
| `DateTexts.WhiteReads` | src/mmp_date.c:129-552 | a white character of the format, %n and %t stand for any number of white characters |
| `DateTexts.CharacterReads` | src/mmp_date.c:136-146 | any other character stands for itself, and %% for a percent sign |
| `Date.Switch` | src/mmp_date.c:140-557 | all conversions, the recursive ones included |
| `Date.XStrptime` | src/mmp_date.c:115-560 | terminates, and leaves the text and the struct tm that the theorems on formats are about, failures included |
| `Date.ParseForm` | src/mmp_date.c:599-634 | one of the three parsers, from a struct tm that holds anything |
| `Date.ParseDate` | src/mmp_date.c:638-647 | the first of the three that takes the whole text, or MMP_ERR_PARSE; what is taken is a date |
| `DateTexts.Print1123Text` | src/mmp_date.c:569-574 | the text printed in the form of RFC 1123, character by character |
| `DateTexts.Print1036Text` | src/mmp_date.c:576-581 | and in that of RFC 1036 |
| `DateBranches.Parse1123` | src/mmp_date.c:569-609 | the RFC 1123 text is taken by the first branch and gives every field back if and only if the year has up to four digits; otherwise no branch takes it |
| `DateBranches.Parse1036` | src/mmp_date.c:576-622 | the RFC 1036 text is always taken by the second branch, with the year of its two digits |
| `DateBranches.Parse1036Iff` | src/mmp_date.c:576-622 | so it gives every field back if and only if the year is one from 1969 to 2068 |
| `DateBranches.ParseAsctime` | src/mmp_date.c:583-647 | the asctime text, day padded with a blank, is taken by the last branch and gives every field back if and only if the year has up to four digits; otherwise no branch takes it |
| `DateBranches.ParsePrinted` | src/mmp_date.c:569-647 | printing in each of the three forms and parsing by mmp_parse_date, end to end and for every date and time: the form told, and all fields but the day of the year as they come back by the theorems on the forms, or MMP_ERR_PARSE for a year that does not |

## Left out

- `mmap`, `pwrite`, `fstat` and the files under them: only their effect on pages is modelled, and they and allocation succeed. Freeing memory, the destroy functions, error tracing and NULL arguments are left out.
- Integers are unbounded, except where a width matters: the binary searches and the cache of the paged array work in 32-bit unsigned arithmetic, its `n_data` in 15 bits, its indexes in 31 bits, the hash in 32 bits. Keys and values of the B-tree and its file offsets do not overflow.
- BTree.BTree.constructor: only an empty file; reading an existing one is not implemented (src/mmp_btree.c:178-179). A page has room for at least two records, since with R below 1 no key can be stored.
- BTree.BTree.Insert: requires a B-tree, which mmp_bt_create makes and every safe insertion keeps; what a further operation does on pages that an unsafe insertion has damaged is not modelled.
- BTree.BTree.Search: `*val` is set by a memcpy of `sizeof(val)` bytes, the size of a pointer (src/mmp_btree.c:234); the model copies the value.
- BArray.BArray.constructor: page numbers times the page length fit 32-bit file offsets (`maxPages`), and a page holds 1 to 32767 records, since `n_data` has 15 bits; beyond that the code wraps.
- BArray.BArray.Insert: the index is below 2^31, the width of its field (src/mmp_barray.c:24). It is compared with the last page only, and with a new page not at all (src/mmp_barray.c:301-311), so that runs of increasing indexes are the ones with a sorted array.
- BArray.BArray.Search: the index is one for which both loops of the search come to an end inside the table, which BArray.SearchableIff says of the condition required; for any other the code reads behind the page table (BArrayProbe.SearchPageIff) or does not end (BArrayProbe.GapLoops), and what it then does is not modelled.
- BArray.BArray.Delete: the same condition.
- BArray.BArray.SearchInPage: the index is not in a gap for which the loop does not end, which BArrayProbe.StopsIff tells exactly.
- BArray.BArray.Reopen: the file holds what a running array wrote. Where records were deleted the rebuilt entries and the search inside a page are described page by page (BArrayProbe.ReopenedFindsIff); further operations on such an array are not modelled.
- BArrayRun.Run: searches and deletions name inserted indexes, absent ones being the subject of BArray.BArray.Search; the inserts fit the pages that 32-bit file offsets address.
- The `dirty` bit of the paged array is written and never read, and is left out.
- List.List.DelElem: the element belongs to the list, and the model is told its place. The header promises the data of the element (src/mmp_list.h:71); the code returns NULL, and so does the model.
- List.List.AddDataSorted: comparers are functions of two pointers that do not change what they point to.
- List.List.SortByData: the comparer is a total preorder.
- Callbacks of the list traversals are left out: LambdaDataExt and LambdaDataExtRev give the data in the order in which a callback sees it. mmp_list_lambda_elem and mmp_list_lambda_data are the same loop.
- PrioQ.PrioQ.SortRoot: what reading a slot at or past `n` gives (src/mmp_prioq.c:125-139) is a parameter, one for each pop; so is the element that a disturbed swap brings in from there. What such a swap leaves behind the end is not told.
- PrioQ.PrioQ.Pop: both out-pointers are taken to be given. After a disturbed pop the queue is modelled as a sequence of what its slots hold; freeing a node twice is not.
- Htab.Htab.Install: a key has no zero character.
- Htab.Htab.Delete: the elements that an unsafe deletion loses are still allocated, and nothing points to them.
- HtabSpec.HtabHash: the conversion of UINT_MAX to a negative int (src/mmp_htab.c:106) is implementation-defined in C; the model has -1.
- Getopt.Getopt.XGetopt: messages on stderr and `opterr` are left out, and so are changes of argv or optind between calls and calls after EOF. getopt() of POSIX.1-2008 gives `:` for a missing argument where opts begins with a colon; the code gives `?`, and the model follows it.
- Date.XStrptime: the conversions %s, %Z and %z depend on the platform's time zone and fail in the model. %G at the end of the text reads past its terminator in the code (src/mmp_date.c:353-355), and fails in the model. The locale is the built-in one.
- Date.ParseDate: gives the broken-down time; mktime, which follows it, and gmtime, which the printers start from, are not part of this model. Weekday and date need not agree, which the code does not check either.
- DateBranches.Parse1123: strftime writes a year without padding, and a day, an hour, a minute, a second in two digits; asctime is what the C standard says of it.
- The other containers of the library (queue, stack, vectors, function list, second tree), its strings, sockets, threads, semaphores and shared memory: easy members, system calls, or the same code again.
