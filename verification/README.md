# Dafny models of the EFL benchmark data structures

The benchmark directory of this repository carries its own copies of the data
structures that EFL grew up with: the Evas list, memory pool, hash and string
table, the Ecore list and its heap, and CityHash 1.0. Two small parsers come from
the example programs. This project models all of them and proves what they are for.

Each structure that the C code changes in place is modelled twice. One module
holds it on plain values (sequences, maps, free lists) with the laws that hold of
every run; another works on a heap of linked nodes or arrays and proves that each
operation does to the heap exactly what the plain operation does to the value.

| files | subject |
|---|---|
| `Wrappers`, `Payloads`, `Sequences`, `Sorting` | shared vocabulary; insertion, removal and search on sequences; comparators, merging, stability |
| `EvasList`, `EvasListSort`, `EvasListRuns` | the doubly linked list with its shared accounting record, the in-place bottom-up sort, runs over many lists |
| `EvasMempool`, `EvasMempoolHeap`, `EvasMempoolRuns` | the slab allocator |
| `CStrings`, `EvasObjectList`, `EvasHash`, `EvasHashHeap` | the hash table over the intrusive list that caches its tail |
| `EvasStringshare`, `EvasStringshareHeap`, `EvasStringshareRuns` | the interning table |
| `EcoreSort`, `EcoreNodes`, `EcoreCursor`, `EcoreList`, `EcoreListJoins`, `EcoreListExamples` | the recursive merge sort, the list with a cursor, joining two lists, lists on which the cursor goes wrong |
| `EcoreSheap`, `EcoreSheapArray`, `EcoreSheapChange` | the binary heap |
| `CityWords`, `CityHash`, `CityLoads` | CityHash: arithmetic on 64-bit words, functions, loads |
| `CityLaws`, `CityWideLaws`, `CityKnown` | which differences it keeps, for CityHash64 and CityHash128; known values |
| `Utf8Check`, `CmdSplit`, `CmdQuoting` | the two parsers; how a user types arguments |

## What the models show

* `evas_list_sort` is not just a sort: on ties it moves the node of the second run
  first in every merge, so equal elements come out in exactly the reverse of their
  original order. `EvasListSort.EvasSortIsReverseStable` proves it for every list
  and comparator, and `StableIffTiesArePalindromes` says when that happens to be
  stable; `TwoEqualSwap` is the smallest list where it is not. `SortPasses` and
  `Sort` tie the relinking loops to this result and show that the list stays well
  formed and that the nodes past `size` stay in place.
* The branch of `evas_mempool_malloc` that takes a chunk out of the middle of the
  list forgets the successor's `prev`. `EvasMempoolHeap.Mempool` shows that the
  branch is never reached, because chunks with room always come first;
  `MoveFromMiddle` shows that, were it reached, the list would stay well formed
  exactly when the chunk is the last one.
* Sorting a heap replaces its array by one of exactly the current size, and
  `ecore_sheap_insert` does not notice. In any run an insert writes past the end of
  the array exactly when the heap is below its space and holds as many elements as
  it did at the last sort, unless the order or the comparator has been set since
  (`EcoreSheap.InsertOverRun`, for runs that have not overrun before).
  `InsertAfterSortOverruns` is a run of three steps that does it.
* `ecore_list_sort` documents an unstable result. The merge sort it uses for short
  lists is stable, and for long lists without NULL payloads the heap sort agrees with
  it position by position up to comparator equality. `ecore_list_heapsort` takes the
  first NULL payload for the end of the list and overwrites the rest with NULL, so it
  sorts exactly those lists whose NULL payloads come last and compare no less than
  the others (`EcoreSort.HeapSortsIff`; `HeapSortLosesPayload` loses one of two).
* The cursor of an `Ecore_List` is right after every run without NULL payloads. With
  them, going to an index and removing an inner item go wrong exactly when the walk
  meets one (`EcoreCursor.Reaches`), and the contracts say what is left then.
  `NullStopsWalk` is a walk that ends one short, and in
  `EcoreListExamples.RemoveLosesItem` an item is lost that nobody removed.
* `ecore_list_insert`, `ecore_list_append_list`, `ecore_list_prepend_list` and
  `ecore_list_merge` put the payloads where they belong (the first one if no NULL
  payload is in the way), but leave `current`, `index` or `last` wrong in some states;
  `EcoreListJoins` gives the exact condition for each, and `EcoreListExamples` a list
  for each. The merges, of singly and doubly linked lists alike, leave a wrong `last`
  exactly when the two tails compare equal (`MergeNodes`, `TiedTails`).
* `ecore_sheap_change` keeps the heap order exactly when it changes the root, or a
  child of the root to something less than the root, or happens to put the new
  element where it belongs (`EcoreSheapChange.ChangeKeepsHeapIff`). It never clears
  the sorted flag, and `ChangeKeepsSortedIff` says exactly which changes of a sorted
  heap leave it sorted. `ChangeBreaksHeap` is a change that breaks the order;
  `ChangeUnsorts` one that keeps the order and makes the flag wrong.
* An argument of `_cmd_split` reads back as its token exactly when the token holds
  no NUL byte and something ends it: every argument but the last is followed by a
  NUL, and so is the last one unless the line drops no character and does not end in
  an unescaped space; then the byte behind the slice has to be a NUL (`CmdSplit.ArgumentsReadBack`,
  `Unterminated`). The caller puts one there only for a line that ended in a newline
  (`CmdLine`). `LastArgumentRunsOn` and `QuotedNulIsCut` are lines that read back
  wrong.
* CityHash keeps some differences and loses others. Of the seven state words with
  which the hash of a long string ends, any two values of three (`y`, `z`, `v.first`)
  are told apart when the others are the same, and of each other word there are two
  that collide (`CityLaws.FinishTells`, `FinishTellsV`, `FinishConfuses`,
  `FinishConfusesW`; CityHash128 in `CityWideLaws`). A 64-byte step keeps six words'
  worth of the seven (`StepMerges`, `StepForgets`), but any one word of the state or of
  the block (`StepTells`, `StepReads`). The loop of CityMurmur keeps
  every difference within one piece (`CityWideLaws.MurmurTells`). `CityKnown` gives
  values for every branch.

Where the code and its own comments disagree, the models follow the code:
`ecore_sheap_insert` is documented to grow the heap but fails when the space is used
up (benchmarks/shared/ecore_sheap.c:124-142); the example for `evas_hash_del` adds
data under a NULL key, which `evas_hash_add` ignores
(benchmarks/shared/evas_hash.c:62-76, 107); the search of `evas_mempool_malloc` is
said to start at the second bucket but starts at the first
(benchmarks/shared/evas_mempool.c:74).

Conventions: a payload is an integer with 0 for NULL; a comparator is any
int-valued function that induces a total preorder; whether an allocation succeeds is
a parameter; memory given back with free is simply no longer part of the structure.

## Model

| member | source | states |
|---|---|---|
| Sorting.MergeSorted | benchmarks/shared/ecore_list.c:1141-1185 | merging two sorted runs gives a sorted run, whichever run wins ties |
| Sorting.MergePermutes | benchmarks/shared/ecore_list.c:1141-1185 | a merge loses and invents nothing |
| Sorting.MergeTies | benchmarks/shared/evas_list.c:1023-1056 | on each class of equal elements a merge is the concatenation of the two runs, in the order the tie rule says |
| Sorting.StableSortUnique | benchmarks/shared/ecore_list.c:1019-1028 | there is only one stable sort of a sequence |
| Sorting.SortedSequencesAgree | benchmarks/shared/ecore_list.c:998-1001 | two sorted sequences with equally large classes agree position by position up to comparator equality |
| Sorting.PermutationHasSameClassSizes | benchmarks/shared/ecore_list.c:998-1001 | a permutation keeps the size of every class of equal elements |
| Sorting.DirectedIsComparator | benchmarks/shared/ecore_list.c:1038-1041 | reversing the direction of a comparator gives a comparator |
| Sorting.DirectionReverses | benchmarks/shared/ecore_list.c:1038-1041 | a sequence is sorted in descending order exactly if its reverse is sorted in ascending order |
| EvasList.EvasList.constructor | benchmarks/shared/evas_list.c:12-31 | a NULL list is a well-formed empty list that owns no accounting record |
| EvasList.EvasList.StartList | benchmarks/shared/evas_list.c:80-95 | a first node becomes a one-element list with its own accounting record, or goes back to the pool when there is none |
| EvasList.EvasList.Append | benchmarks/shared/evas_list.c:65-104 | a fresh node goes last; shape, shared record, last and count stay exact and both pools are charged for exactly what the list holds; failure changes nothing but the flag |
| EvasList.EvasList.Prepend | benchmarks/shared/evas_list.c:132-169 | a fresh node goes first, with the same guarantees |
| EvasList.EvasList.AppendRelativeList | benchmarks/shared/evas_list.c:223-258 | the element goes right behind the given node, or last without one |
| EvasList.EvasList.PrependRelativeList | benchmarks/shared/evas_list.c:320-351 | the element goes right before the given node, or first without one |
| EvasList.EvasList.AppendRelative | benchmarks/shared/evas_list.c:208-221 | the element goes behind the first occurrence of the relative data, or last |
| EvasList.EvasList.PrependRelative | benchmarks/shared/evas_list.c:304-318 | the element goes before the first occurrence of the relative data, or first |
| EvasList.EvasList.FindList | benchmarks/shared/evas_list.c:578-588 | the first node that holds the data, or NULL |
| EvasList.EvasList.RemoveList | benchmarks/shared/evas_list.c:411-443 | exactly the given node leaves; the accounting record goes back with the last node |
| EvasList.EvasList.Remove | benchmarks/shared/evas_list.c:370-379 | exactly the first occurrence of the data leaves, if there is one |
| EvasList.EvasList.PromoteList | benchmarks/shared/evas_list.c:473-508 | the given node moves to the front and all others keep their order |
| EvasList.EvasList.NthList | benchmarks/shared/evas_list.c:842-873 | walking from whichever end is closer reaches element n, and NULL when there is none |
| EvasList.EvasList.Reverse | benchmarks/shared/evas_list.c:897-922 | the payloads come out reversed while every node stays where it is |
| EvasList.EvasList.Free | benchmarks/shared/evas_list.c:606-622 | every node and the one accounting record go back to their pools |
| EvasList.LinkLast | benchmarks/shared/evas_list.c:97-102 | the pointer updates of append keep the list well formed with the node last |
| EvasList.LinkFirst | benchmarks/shared/evas_list.c:160-168 | the pointer updates of prepend, with the node first |
| EvasList.LinkAfter | benchmarks/shared/evas_list.c:238-257 | the pointer updates behind a node |
| EvasList.LinkBefore | benchmarks/shared/evas_list.c:335-350 | the pointer updates before a node |
| EvasList.Unlink | benchmarks/shared/evas_list.c:419-434 | the pointer updates around a removed node |
| EvasList.Promote | benchmarks/shared/evas_list.c:487-505 | the pointer updates of a promotion |
| EvasList.ReverseData | benchmarks/shared/evas_list.c:904-919 | exchanging payloads from both ends until the pointers meet reverses them |
| EvasListSort.EvasSortIsReverseStable | benchmarks/shared/evas_list.c:976-1063 | the schedule of passes sorts every sequence and reverses every class of equal elements |
| EvasListSort.StableIffTiesArePalindromes | benchmarks/shared/evas_list.c:1023-1056 | the sort is stable exactly when every class of equal elements reads the same both ways |
| EvasListSort.SortsTheReverseStably | benchmarks/shared/evas_list.c:1023-1056 | the result is the stable sort of the reversed input |
| EvasListSort.SortedPrefixIsSorted | benchmarks/shared/evas_list.c:971-974 | for a size from 1 up to the length the first size elements are the reverse-stable sort of themselves and the rest is untouched; for any other size the whole sequence is sorted so |
| EvasListSort.PassDoublesRuns | benchmarks/shared/evas_list.c:989-1059 | one pass turns sorted runs of width w into sorted runs of width 2w |
| EvasListSort.PassesSort | benchmarks/shared/evas_list.c:979-1060 | passes that double the width up to a bound that covers the sequence leave it sorted |
| EvasListSort.StillCovers | benchmarks/shared/evas_list.c:979-981 | halving the number of pairs and doubling the width never stops covering the prefix |
| EvasListSort.MergePair | benchmarks/shared/evas_list.c:1004-1058 | the inner loop merges two adjacent runs by relinking, leaves every node behind them in its place, keeps the chain and its ends well formed, and finds the next run |
| EvasListSort.Relink | benchmarks/shared/evas_list.c:1030-1045 | the six pointer updates move one node in front of another and change nothing else |
| EvasListSort.MoveNode | benchmarks/shared/evas_list.c:1030-1055 | with the head and tail patched, the chain is the old one with that node moved |
| EvasListSort.SkipRun | benchmarks/shared/evas_list.c:1013-1018 | when the first run is used up the loop skips to the end of the second |
| EvasListSort.Advance | benchmarks/shared/evas_list.c:1004-1005 | stepping over the first run finds the second |
| EvasListSort.SortPair | benchmarks/shared/evas_list.c:991-1058 | the widths cut off for one pair, also at the end of the nodes where they shrink to nothing |
| EvasListSort.SortPass | benchmarks/shared/evas_list.c:983-1059 | one pass over the nodes equals one pass over the sequence, surplus pairs being empty |
| EvasListSort.SortPasses | benchmarks/shared/evas_list.c:976-1062 | all passes: the first size nodes are a permutation of themselves that holds the sorted payloads, every node behind them stays where it is, the ends are right |
| EvasListSort.Sort | benchmarks/shared/evas_list.c:960-1064 | evas_list_sort leaves a well-formed list with the true tail and an unchanged count; for a size from 1 up to the length the first size nodes are permuted and their payloads are the reverse-stable sort of the old ones, with every node behind them in its place; for any other size the whole list is sorted so |
| EvasListSort.TwoEqualSwap | benchmarks/shared/evas_list.c:1023-1056 | two elements that compare equal come out exchanged, which no stable sort does |
| EvasListRuns.AppendAtNth | benchmarks/shared/evas_list.c:223-258 | inserting behind the node at any position, or last when there is none, is the insertion into the sequence |
| EvasListRuns.PrependAtNth | benchmarks/shared/evas_list.c:320-351 | inserting before the node at any position, or first when there is none, is the insertion into the sequence |
| EvasListRuns.RemoveNth | benchmarks/shared/evas_list.c:411-443 | removing the node at any position, whatever other nodes hold, removes just that element |
| EvasListRuns.NewSystem | benchmarks/shared/evas_list.c:18-31 | any number of NULL lists over unused pools is a system that runs can start from |
| EvasListRuns.Dispatch | benchmarks/shared/evas_list.c:65-922 | every operation, those on given nodes included, does to one list what it does to a sequence and charges the pools for exactly the difference |
| EvasListRuns.Step | benchmarks/shared/evas_list.c:18-31 | an operation on one of several lists leaves the others alone and the pools exact |
| EvasListRuns.Run | benchmarks/shared/evas_list.c:18-31 | after any script over any lists the heap holds what plain sequences hold, node usage is the sum of the lengths and accounting usage the number of non-empty lists |
| EvasListRuns.TotalsAfterUpdate | benchmarks/shared/evas_list.c:18-31 | how the two totals change when one list changes |
| EvasMempool.EveryRun | benchmarks/shared/evas_mempool.c:66-191 | after every run of malloc and valid free: chunks with room first, live blocks exactly what the caller holds, usage their number, no empty chunk kept, and nothing left when all is freed |
| EvasMempool.SearchStopsAtFirst | benchmarks/shared/evas_mempool.c:74-92 | the search for room stops at the first chunk or finds none |
| EvasMempool.MallocStep | benchmarks/shared/evas_mempool.c:66-131 | malloc keeps the invariant, returns a block that was not live and makes just that one live; it fails only without room and memory |
| EvasMempool.FreeStep | benchmarks/shared/evas_mempool.c:134-191 | freeing a live block keeps the invariant and makes just that block dead |
| EvasMempool.UsageIsLiveCount | benchmarks/shared/evas_mempool.c:127-128 | the usage counters of the chunks add up to the number of live blocks |
| EvasMempool.SoundMalloc | benchmarks/shared/evas_mempool.c:127-129 | the pool's own counter stays the number of live blocks over malloc |
| EvasMempool.SoundFree | benchmarks/shared/evas_mempool.c:152-155 | the same over free |
| EvasMempoolHeap.PoolNew | benchmarks/shared/evas_mempool.c:40-53 | a new chunk threads all its slots in order into an acyclic free list |
| EvasMempoolHeap.FindRoom | benchmarks/shared/evas_mempool.c:74-92 | the search finds the first chunk with a free slot |
| EvasMempoolHeap.MoveFromMiddle | benchmarks/shared/evas_mempool.c:78-88 | this branch leaves a well-formed list exactly when the chunk is the last one |
| EvasMempoolHeap.ChunkWithRoom | benchmarks/shared/evas_mempool.c:74-109 | the branch above is never taken, and the first chunk of the new list has room unless malloc must fail |
| EvasMempoolHeap.PushFront | benchmarks/shared/evas_mempool.c:99-107 | a fresh chunk is linked in front |
| EvasMempoolHeap.SendLast | benchmarks/shared/evas_mempool.c:112-125 | a chunk that filled up goes to the end |
| EvasMempoolHeap.TakeSlot | benchmarks/shared/evas_mempool.c:110-128 | the head of the free list becomes the caller's block |
| EvasMempoolHeap.ReturnSlot | benchmarks/shared/evas_mempool.c:152-155 | a freed slot becomes the head of the free list |
| EvasMempoolHeap.TakeOut | benchmarks/shared/evas_mempool.c:158-168 | an emptied chunk leaves the list |
| EvasMempoolHeap.MoveFirst | benchmarks/shared/evas_mempool.c:174-184 | a chunk that got room moves to the front |
| EvasMempoolHeap.FindChunk | benchmarks/shared/evas_mempool.c:146-151 | the chunk an address lies in, or none |
| EvasMempoolHeap.Grow | benchmarks/shared/evas_mempool.c:93-108 | a fresh chunk joins the list in front with all its slots free |
| EvasMempoolHeap.TakeFromFirst | benchmarks/shared/evas_mempool.c:110-127 | the first chunk loses its first free slot and nothing else changes |
| EvasMempoolHeap.RetireFull | benchmarks/shared/evas_mempool.c:112-125 | the first chunk goes last exactly when it has no free slot left |
| EvasMempoolHeap.TakeBlockOf | benchmarks/shared/evas_mempool.c:110-128 | both together are the abstract taking of a block |
| EvasMempoolHeap.Rearrange | benchmarks/shared/evas_mempool.c:156-185 | the chunk that got a slot back leaves the list when empty and goes first otherwise |
| EvasMempoolHeap.MallocBlock | benchmarks/shared/evas_mempool.c:66-131 | malloc on the linked chunks equals malloc on their abstraction |
| EvasMempoolHeap.FreeIn | benchmarks/shared/evas_mempool.c:152-186 | free on the linked chunks equals free on their abstraction |
| EvasMempoolHeap.Mempool.Malloc | benchmarks/shared/evas_mempool.c:66-131 | evas_mempool_malloc refines the abstract malloc and keeps every state sound |
| EvasMempoolHeap.Mempool.Free | benchmarks/shared/evas_mempool.c:134-191 | evas_mempool_free refines the abstract free; a foreign address is ignored |
| EvasMempoolHeap.Mempool.Store | benchmarks/shared/evas_mempool.c:127-130 | whatever the caller writes into a live block disturbs nothing |
| EvasMempoolRuns.AllocFollows | benchmarks/shared/evas_mempool.c:66-131 | an allocation in a script is the plain malloc, and what it returns is distinct from everything the caller holds |
| EvasMempoolRuns.ReleaseFollows | benchmarks/shared/evas_mempool.c:134-191 | giving back what is held is the plain free, and the caller holds exactly the rest |
| EvasMempoolRuns.StillLinked | benchmarks/shared/evas_mempool.c:156-171 | the chunk of a live block stays in the list when others leave it |
| EvasMempoolRuns.RunScript | benchmarks/shared/evas_mempool.c:66-191 | every script of malloc, free and stores on the linked chunks ends where the plain run does: the caller holds distinct slots, exactly the live ones, usage is their number, and first and last are NULL exactly when all is given back |
| EvasObjectList.Append | benchmarks/shared/evas_object_list.c:10-35 | the item goes last and the head caches the tail, whatever the cache was |
| EvasObjectList.FindTail | benchmarks/shared/evas_object_list.c:26-29 | without a cache the walk finds the tail |
| EvasObjectList.Prepend | benchmarks/shared/evas_object_list.c:37-58 | the item goes first and takes the cache over |
| EvasObjectList.AppendRelative | benchmarks/shared/evas_object_list.c:60-89 | the item goes behind another, and the cache follows a new tail |
| EvasObjectList.PrependRelative | benchmarks/shared/evas_object_list.c:91-129 | the item goes before another, and a new head takes the cache over |
| EvasObjectList.Remove | benchmarks/shared/evas_object_list.c:131-167 | the item leaves and the cache stays valid on whatever node is then the head |
| EvasObjectList.MoveToFront | benchmarks/shared/evas_hash.c:309-317 | removing and prepending an item moves it to the front with the cache intact |
| EvasHash.HashGen | benchmarks/shared/evas_hash.c:23-37 | the accumulator loop computes the bucket of a key, always within the table |
| EvasHash.CodeByCharacter | benchmarks/shared/evas_hash.c:26-36 | the empty key goes to bucket 5, and one more character takes the bucket times 33, exclusive-ors the character and keeps the low eight bits |
| EvasHash.AddPushes | benchmarks/shared/evas_hash.c:102-141 | adding pushes on the stack of the key, leaves every other key alone and counts one more |
| EvasHash.FindPeeks | benchmarks/shared/evas_hash.c:293-323 | looking up returns the top and, despite moving to the front, changes no stack and no count |
| EvasHash.ModifyReplacesTop | benchmarks/shared/evas_hash.c:336-370 | modifying replaces the top, if there is one |
| EvasHash.DeletePops | benchmarks/shared/evas_hash.c:255-279 | deleting by key pops; with data it removes the topmost entry that holds it; the population falls by one exactly if there is one to remove |
| EvasHash.DeleteAnywhere | benchmarks/shared/evas_hash.c:232-254 | deleting without a key removes, for one key, the topmost entry that holds the data, and nothing exactly when no entry does |
| EvasHash.MoveToFrontKeepsStacks | benchmarks/shared/evas_hash.c:309-317 | moving the first entry of a key to the front of its bucket changes no stack |
| EvasHash.AddedComesFirst | benchmarks/shared/evas_hash.c:136-139 | a new entry comes first in its bucket, all others keep their order, and no other bucket changes |
| EvasHash.HitComesFirst | benchmarks/shared/evas_hash.c:309-317 | a lookup or a change brings the first entry for its key to the front of its bucket, all others keep their order, and no other bucket changes |
| EvasHash.MissKeepsTable | benchmarks/shared/evas_hash.c:303-322 | a lookup or a change that finds nothing leaves every bucket as it was |
| EvasHash.LookupDecidesDeletion | benchmarks/shared/evas_hash.c:232-254 | what a lookup has just returned is, among the entries of its bucket with the same data, what a deletion without a key then takes |
| EvasHash.EmptyIffNothingStacked | benchmarks/shared/evas_hash.c:246-251 | the population is zero exactly when nothing is stored under any key |
| EvasHash.ApplyHasEffect | benchmarks/shared/evas_hash.c:102-370 | every call, also one with NULL arguments or without memory, does to every key's stack and to the population what its effect says |
| EvasHash.EveryRun | benchmarks/shared/evas_hash.c:102-370 | in every run, deletions without a key included, each key behaves like a stack of its own, and the population is what was stored less what was taken out |
| EvasHashHeap.Search | benchmarks/shared/evas_hash.c:304-307 | the loop of find stops at the first entry for the key |
| EvasHashHeap.SearchMatch | benchmarks/shared/evas_hash.c:258-262 | the loop of del stops at the first entry for the key that holds the data |
| EvasHashHeap.SearchAll | benchmarks/shared/evas_hash.c:233-238 | the loops without a key stop at the first entry in bucket order that holds the data |
| EvasHashHeap.Put | benchmarks/shared/evas_hash.c:133-139 | a new element goes in front of its bucket and touches no other |
| EvasHashHeap.TakeOut | benchmarks/shared/evas_hash.c:240-251 | an element leaves, the population follows, and the table is released exactly at zero |
| EvasHashHeap.BringForward | benchmarks/shared/evas_hash.c:309-317 | a hit moves to the front of its bucket and touches no other |
| EvasHashHeap.Add | benchmarks/shared/evas_hash.c:102-205 | both adds: the abstract add, NULL arguments ignored, a table that stays empty given back, the error flag right |
| EvasHashHeap.Lookup | benchmarks/shared/evas_hash.c:293-323 | evas_hash_find returns the top and refines the abstract lookup |
| EvasHashHeap.Modify | benchmarks/shared/evas_hash.c:336-370 | evas_hash_modify returns the old top and refines the abstract change |
| EvasHashHeap.Delete | benchmarks/shared/evas_hash.c:223-282 | evas_hash_del refines the abstract deletions and returns NULL exactly when nothing is left |
| EvasHashHeap.Free | benchmarks/shared/evas_hash.c:418-438 | every element is given back exactly once |
| EvasHashHeap.RunScript | benchmarks/shared/evas_hash.c:102-370 | after any script on a table pointer contents, results and error flag are those of the plain table, and the pointer is NULL exactly when nothing is stored |
| EvasStringshareHeap.HashGen | benchmarks/shared/evas_stringshare.c:167-181 | the loop computes the bucket and the length |
| EvasStringshareHeap.CodeByCharacter | benchmarks/shared/evas_stringshare.c:170-178 | the empty string goes to bucket 261, and one more character takes the bucket times 33, exclusive-ors the character and keeps the low ten bits |
| EvasStringshareHeap.Refront | benchmarks/shared/evas_stringshare.c:207-212 | unlinking behind the predecessor and relinking in front moves just that element |
| EvasStringshareHeap.Bypass | benchmarks/shared/evas_stringshare.c:256-259 | an element is taken out behind its predecessor or off the front |
| EvasStringshareHeap.AddNew | benchmarks/shared/evas_stringshare.c:220-232 | an unknown string gets one element with one reference |
| EvasStringshareHeap.Forget | benchmarks/shared/evas_stringshare.c:254-262 | an element without references leaves the table |
| EvasStringshareHeap.BringForward | benchmarks/shared/evas_stringshare.c:207-212 | a hit moves to the front of its bucket, which changes no share |
| EvasStringshareHeap.Retain | benchmarks/shared/evas_stringshare.c:207-217 | a known string is counted once more and keeps its handle |
| EvasStringshareHeap.Release | benchmarks/shared/evas_stringshare.c:251-268 | a handle is taken back, the last one takes the element with it |
| EvasStringshareHeap.AddString | benchmarks/shared/evas_stringshare.c:183-233 | evas_stringshare_add returns the one handle of a live string and counts it once more, or makes one |
| EvasStringshareHeap.DelString | benchmarks/shared/evas_stringshare.c:235-275 | evas_stringshare_del takes one reference back and aborts exactly for a string that is no live handle |
| EvasStringshareRuns.AddKeeps | benchmarks/shared/evas_stringshare.c:183-233 | an addition returns the handle of its string that the caller still holds, or a new one if there is none, and keeps the balance |
| EvasStringshareRuns.DelKeeps | benchmarks/shared/evas_stringshare.c:235-275 | giving back a handle that is held keeps the balance |
| EvasStringshareRuns.EmptyWhenAllGivenBack | benchmarks/shared/evas_stringshare.c:254-262 | the table is empty exactly when the caller has given everything back |
| EvasStringshareRuns.RunScript | benchmarks/shared/evas_stringshare.c:183-275 | over any script on a table with its buckets: the references of every handle are the additions that returned it less the deletions that took it back, one handle per live string for as long as that is positive, and the run aborts only on something not held |
| EcoreSheap.SiftUpRestores | benchmarks/shared/ecore_sheap.c:156-204 | the rising loop restores the heap order |
| EcoreSheap.RisesPastGreater | benchmarks/shared/ecore_sheap.c:156-204 | a rising element passes exactly ancestors that are greater and stops below one that is at most equal; those passed move down one level and nothing else moves |
| EcoreSheap.SiftDownRestores | benchmarks/shared/ecore_sheap.c:384-430 | heapify restores the heap order when only its start may be out of place |
| EcoreSheap.ExtremeIsLeast | benchmarks/shared/ecore_sheap.c:387-414 | the element chosen is the least of a node and its children |
| EcoreSheap.TiesStay | benchmarks/shared/ecore_sheap.c:387-414 | on ties a node stays above its children, and the left child wins against the right one |
| EcoreSheap.TopIsLeast | benchmarks/shared/ecore_sheap.c:235-248 | the root precedes every element |
| EcoreSheap.InsertKeepsHeap | benchmarks/shared/ecore_sheap.c:128-207 | insert keeps the heap order and adds exactly one element |
| EcoreSheap.ExtractKeepsHeap | benchmarks/shared/ecore_sheap.c:217-233 | extract keeps the heap order and removes exactly the root |
| EcoreSheap.DrainSorts | benchmarks/shared/ecore_sheap.c:330-354 | draining a heap yields its elements sorted |
| EcoreSheap.HeapSortSorts | benchmarks/shared/ecore_list.c:1199-1234 | inserting everything and draining sorts |
| EcoreSheap.Step | benchmarks/shared/ecore_sheap.c:128-377 | every operation keeps order, sorted flag and elements right for the comparator and direction then in force, which are the ones just set or else the old ones |
| EcoreSheap.InForce | benchmarks/shared/ecore_sheap.c:290-321 | setting the comparator or the direction puts that one in force and leaves the other; nothing else changes either |
| EcoreSheap.ComparatorInForce | benchmarks/shared/ecore_sheap.c:290-303 | over any run the comparator in force is the last one set |
| EcoreSheap.DirectionInForce | benchmarks/shared/ecore_sheap.c:313-321 | over any run the direction in force is the last one set |
| EcoreSheap.ExtractAfterSetting | benchmarks/shared/ecore_sheap.c:290-321 | right after setting a comparator or a direction, extracting returns an element that precedes all others in the new order |
| EcoreSheap.EveryRun | benchmarks/shared/ecore_sheap.c:128-451 | over every run what is in the heap and what came out is what was in it and what went in |
| EcoreSheap.ItemInOrder | benchmarks/shared/ecore_sheap.c:356-377 | item looks at a sorted arrangement of exactly the heap's elements |
| EcoreSheap.InsertAfterSort | benchmarks/shared/ecore_sheap.c:338-353 | right after a sort an insert has a slot exactly when the heap is full, and always after a rebuild |
| EcoreSheap.SlotsOverRun | benchmarks/shared/ecore_sheap.c:330-354 | over any run the array has all its slots until a sort, and then as many as the heap held at the last one, until a rebuild |
| EcoreSheap.InsertOverRun | benchmarks/shared/ecore_sheap.c:128-145 | after any run inside the array the next insert overruns it exactly when there is space left and the heap is as large as at the last sort since it was last rebuilt |
| EcoreSheap.InsertAfterSortOverruns | benchmarks/shared/ecore_sheap.c:128-145 | a run of an insert and a sort after which the next insert has no slot |
| EcoreSheap.DirectCompareIsComparator | benchmarks/shared/ecore_sheap.c:453-468 | the default comparison is a comparator |
| EcoreSheapArray.Rise | benchmarks/shared/ecore_sheap.c:150-204 | the loop in the array is the abstract rise |
| EcoreSheapArray.FindExtreme | benchmarks/shared/ecore_sheap.c:387-414 | the index arithmetic picks the abstract extreme |
| EcoreSheapArray.Heapify | benchmarks/shared/ecore_sheap.c:384-430 | the recursion in the array is the abstract sink |
| EcoreSheapArray.Sheap.constructor | benchmarks/shared/ecore_sheap.c:27-74 | a new heap is empty, with all its slots |
| EcoreSheapArray.Sheap.Insert | benchmarks/shared/ecore_sheap.c:128-207 | refines insert; fails exactly when the space is used up, and reports exactly the inserts that would write past the array |
| EcoreSheapArray.Sheap.Extract | benchmarks/shared/ecore_sheap.c:217-233 | returns the root, or NULL from an empty heap, and refines extract |
| EcoreSheapArray.Sheap.UpdateData | benchmarks/shared/ecore_sheap.c:432-451 | rebuilds the heap for a new order in a full-size array |
| EcoreSheapArray.Sheap.OrderSet | benchmarks/shared/ecore_sheap.c:313-321 | the direction becomes the given one, the comparator stays, and the heap is the rebuilt one |
| EcoreSheapArray.Sheap.CompareSet | benchmarks/shared/ecore_sheap.c:290-303 | the comparator becomes the given one, the direction stays, and the heap is the rebuilt one |
| EcoreSheapArray.Sheap.Sort | benchmarks/shared/ecore_sheap.c:330-354 | leaves the drained sequence in an array of exactly its size |
| EcoreSheapArray.Sheap.Item | benchmarks/shared/ecore_sheap.c:364-377 | the i-th element in order, NULL past the end |
| EcoreSheapArray.RunScript | benchmarks/shared/ecore_sheap.c:128-451 | every script on the array, up to the first insert that would overrun it, leaves the state and gives the results of the plain heap, and conserves the elements |
| EcoreSheapChange.ChangeKeepsHeapIff | benchmarks/shared/ecore_sheap.c:259-279 | a change keeps the heap order exactly at the root, at a child of the root that becomes less than it, or when the new element is in place |
| EcoreSheapChange.SinkSorted | benchmarks/shared/ecore_sheap.c:384-430 | heapify leaves a sequence that was sorted but for one position sorted exactly if nothing it passes or stops at is out of order |
| EcoreSheapChange.ChangeKeepsSortedIff | benchmarks/shared/ecore_sheap.c:259-279 | which changes of a sorted heap leave it sorted, and so the flag honest |
| EcoreSheapChange.ChangeKeepsGoodIff | benchmarks/shared/ecore_sheap.c:259-279 | order and flag are both right after a change exactly under the two conditions |
| EcoreSheapChange.ChangeBreaksHeap | benchmarks/shared/ecore_sheap.c:273-276 | a heap and a change that leaves no heap |
| EcoreSheapChange.ChangeUnsorts | benchmarks/shared/ecore_sheap.c:259-279 | a sorted heap and a change that keeps the heap order but not the sorting, which the flag does not show |
| EcoreSheapChange.Change | benchmarks/shared/ecore_sheap.c:259-279 | the first element that compares equal is overwritten and the array heapified from the root; the flag stays, and order and flag are right exactly under the stated condition |
| EcoreSort.MergeSortIsStable | benchmarks/shared/ecore_list.c:1019-1054 | the merge sort is a stable sort |
| EcoreSort.OnlyStableSort | benchmarks/shared/ecore_list.c:1019-1028 | any stable sort of the same list gives the same result |
| EcoreSort.MergeSortTwo | benchmarks/shared/ecore_list.c:1111-1123 | exchanging two payloads is what the recursion would do |
| EcoreSort.SortsAgree | benchmarks/shared/ecore_list.c:1003-1017 | heap sort and merge sort agree position by position up to comparator equality |
| EcoreSort.HeapSortsIff | benchmarks/shared/ecore_list.c:1199-1234 | ecore_list_heapsort sorts exactly the lists whose NULL payloads come last and compare no less than the others |
| EcoreSort.HeapSortLosesPayload | benchmarks/shared/ecore_list.c:1215-1228 | a list of two payloads of which it loses one |
| EcoreSort.ListSortSorts | benchmarks/shared/ecore_list.c:1003-1017 | the wrapper sorts, permutes, and agrees with the merge sort in both directions whatever it picks, for the heap sort without NULL payloads |
| EcoreSort.ListSortIsStable | benchmarks/shared/ecore_list.c:1003-1017 | below 40000 items, or without memory for a heap, the sort is the stable one |
| EcoreSort.HeapSortKeepsFront | benchmarks/shared/ecore_list.c:1199-1234 | the heap sort sorts what stands in front of the first NULL payload and leaves NULL in all other places |
| EcoreNodes.NodeMerge | benchmarks/shared/ecore_list.c:1141-1185 | relinking merges two chains into one of exactly their nodes, node by node in the order of the payloads, the first list winning ties |
| EcoreNodes.MergedData | benchmarks/shared/ecore_list.c:1141-1185 | the payloads of the merged nodes are the merge of the payloads |
| EcoreNodes.LinkOn | benchmarks/shared/ecore_list.c:2075-2089 | one step of the merge keeps both directions of the finished part mirrored |
| EcoreNodes.HangOn | benchmarks/shared/ecore_list.c:2091-2103 | the rest is hung on and the chain ends in NULL |
| EcoreNodes.Split | benchmarks/shared/ecore_list.c:2041-2044 | cutting gives two well-formed chains |
| EcoreNodes.FindPremid | benchmarks/shared/ecore_list.c:1125-1127 | the walk ends on the last node of the first half |
| EcoreNodes.SortTwo | benchmarks/shared/ecore_list.c:1111-1123 | two nodes are sorted by exchanging payloads |
| EcoreNodes.NodeMergeSort | benchmarks/shared/ecore_list.c:2009-2051 | the recursion returns a chain of the same nodes, each previous exactly the predecessor and the head's NULL, holding the stable sort |
| EcoreNodes.DListMergeSort | benchmarks/shared/ecore_list.c:1941-1966 | the doubly linked list keeps its nodes and mirror links, gets its true tail, is stably sorted, and has its cursor on the first item |
| EcoreNodes.LastOf | benchmarks/shared/ecore_list.c:1046-1049 | the walk finds the new tail |
| EcoreCursor.WalkVisitsAll | benchmarks/shared/ecore_list.c:937-949 | from the first item, next returns the payloads in order up to the first NULL, so a loop over it sees the whole list exactly when no payload is NULL |
| EcoreCursor.GotoFinds | benchmarks/shared/ecore_list.c:696-729 | goto finds a payload exactly when no NULL payload comes before it, and leaves the index at its first occurrence, or else at the first NULL |
| EcoreCursor.WalkEnds | benchmarks/shared/ecore_list.c:658-666 | the walk to an index ends there, or at the first NULL payload on the way |
| EcoreCursor.NoNullKept | benchmarks/shared/ecore_list.c:666 | on a list without NULL payloads every operation leaves the cursor right, and only adding one brings one in |
| EcoreCursor.FirstRemoveUndoesPrepend | benchmarks/shared/ecore_list.c:282-298 | removing the first item returns what has just been prepended and restores list and cursor |
| EcoreCursor.LastRemoveUndoesAppend | benchmarks/shared/ecore_list.c:583-615 | removing the last item returns what has just been appended and restores the list, and a cursor that is not past its end |
| EcoreCursor.RemovalsKeepCurrent | benchmarks/shared/ecore_list.c:531-615 | taking an end off keeps the current item, unless that is it: then the next one becomes current, or none |
| EcoreCursor.RemoveIsNextAndGone | benchmarks/shared/ecore_list.c:453-489 | removing returns what next would, takes just that out, and makes current what would have come after it |
| EcoreCursor.LastThenEnd | benchmarks/shared/ecore_list.c:781-791 | going to the last item returns it, next returns it again, and the next after that returns NULL |
| EcoreCursor.IndexGotoIsSteps | benchmarks/shared/ecore_list.c:644-674 | going to index i is going to the first item and taking i steps, also for the index one past the last |
| EcoreCursor.WithoutNullAllReach | benchmarks/shared/ecore_list.c:225-896 | no walk of a run that stores no NULL payload goes astray |
| EcoreCursor.NullStopsWalk | benchmarks/shared/ecore_list.c:644-674 | a list on which going to an index goes astray |
| EcoreList.EcoreList.constructor | benchmarks/shared/ecore_list.c:104-112 | an initialised list is empty with its cursor at 0 |
| EcoreList.EcoreList.Append | benchmarks/shared/ecore_list.c:235-256 | the item goes last, whatever it is; the index stays, or stays past the end |
| EcoreList.EcoreList.Prepend | benchmarks/shared/ecore_list.c:282-298 | the item goes first, the current node stays and the index goes up by one with it |
| EcoreList.EcoreList.FirstRemove | benchmarks/shared/ecore_list.c:531-562 | returns the first payload; the cursor stays on its node with the index one lower, or moves to the new first |
| EcoreList.EcoreList.LastRemove | benchmarks/shared/ecore_list.c:583-615 | returns the last payload; a cursor on it ends past the end, any other stays |
| EcoreList.FindPrevious | benchmarks/shared/ecore_list.c:602 | the walk stops at the last node but one |
| EcoreList.EcoreList.DropLast | benchmarks/shared/ecore_list.c:602-609 | the last node is cut off and the one before it is last |
| EcoreList.CutLast | benchmarks/shared/ecore_list.c:603-609 | cutting the last node off leaves the others as they were |
| EcoreList.Bypass | benchmarks/shared/ecore_list.c:478-481 | linking past an inner node from any node in front of it leaves the rest as it was |
| EcoreList.HangEnd | benchmarks/shared/ecore_list.c:238-241 | a new node behind the last one |
| EcoreList.EcoreList.Remove | benchmarks/shared/ecore_list.c:453-489 | returns the current item; the next one is then current at the same index, exactly if no NULL payload stops the walk back, and otherwise what is lost is stated |
| EcoreList.EcoreList.RemoveInside | benchmarks/shared/ecore_list.c:474-486 | removing an inner node steps back, bypasses it and steps on to the next, with the same exception |
| EcoreList.EcoreList.Next | benchmarks/shared/ecore_list.c:877-896 | returns the payload at the index and advances by one, NULL without moving past the end |
| EcoreList.EcoreList.Goto | benchmarks/shared/ecore_list.c:696-729 | lands on the first occurrence of the data or on a NULL payload in front of it, or stays |
| EcoreList.EcoreList.IndexGoto | benchmarks/shared/ecore_list.c:644-674 | lands on the index from wherever the cursor was, one past the end being allowed, exactly if the walk meets no NULL payload; otherwise it strays by one, and crashes past the end |
| EcoreList.EcoreList.WalkTo | benchmarks/shared/ecore_list.c:666 | the loop stops at the index or one past the first NULL payload |
| EcoreList.EcoreList.FirstGoto | benchmarks/shared/ecore_list.c:750-760 | on a list with items the first node is current at index 0 and its payload is returned |
| EcoreList.EcoreList.LastGoto | benchmarks/shared/ecore_list.c:781-791 | on a list with items the last node is current at the last index and its payload is returned |
| EcoreList.EcoreList.MergeSortList | benchmarks/shared/ecore_list.c:1030-1054 | the stable sort in the same nodes, last the true tail, the cursor at 0 |
| EcoreList.EcoreList.FillHeap | benchmarks/shared/ecore_list.c:1209-1218 | walking with next puts the payloads up to the first NULL into the heap |
| EcoreList.FillNode | benchmarks/shared/ecore_list.c:1226 | each node takes the least payload left, or NULL |
| EcoreList.DrainHeap | benchmarks/shared/ecore_list.c:1220-1228 | the nodes take the payloads back in sorted order, and NULL after that |
| EcoreList.EcoreList.HeapSortList | benchmarks/shared/ecore_list.c:1199-1234 | the nodes stay, the payloads become the heap sort, or nothing changes without memory |
| EcoreList.EcoreList.Sort | benchmarks/shared/ecore_list.c:1003-1017 | the choice of algorithm by size and memory |
| EcoreList.GoAstray | benchmarks/shared/ecore_list.c:453-674 | what a step leaves whose walk meets a NULL payload, and when it crashes |
| EcoreList.RunScript | benchmarks/shared/ecore_list.c:225-896 | in every script length, tail, current node and index are those of the plain model, and so is every result, up to the first step whose walk meets a NULL payload; without NULL payloads that is to the end |
| EcoreListJoins.MergedTail | benchmarks/shared/ecore_list.c:1088-1091 | the merge of two sorted lists ends with the second one's tail unless the first one's is greater |
| EcoreListJoins.TiedTails | benchmarks/shared/ecore_list.c:1088-1091 | two nodes that compare equal merge with the second one last |
| EcoreListJoins.KeepsPosition | benchmarks/shared/ecore_list.c:1141-1185 | a node of the first list keeps its position exactly if nothing in the second is less |
| EcoreListJoins.MergeNodes | benchmarks/shared/ecore_list.c:1977-2006 | merging singly or doubly linked lists relinks their nodes in order, and the new last is the true tail exactly if the tails do not compare equal |
| EcoreListJoins.MergeLists | benchmarks/shared/ecore_list.c:1065-1095 | the payloads are merged, the second list is emptied, and last and the cursor are right exactly under the stated conditions |
| EcoreListJoins.AppendList | benchmarks/shared/ecore_list.c:366-391 | the other list's items go last, and the cursor is right exactly under the stated condition |
| EcoreListJoins.TakeOver | benchmarks/shared/ecore_list.c:411-414 | an empty list takes the other one over, and the cursor is right exactly if its index is past the new end |
| EcoreListJoins.LinkInFront | benchmarks/shared/ecore_list.c:418-421 | a list in front of another, with the cursor following |
| EcoreListJoins.PrependList | benchmarks/shared/ecore_list.c:400-425 | the other list's items go first, and the cursor is right exactly under the stated condition |
| EcoreListJoins.InsertInside | benchmarks/shared/ecore_list.c:344-354 | the payload goes in front of the current one; the index is one too low |
| EcoreListJoins.Insert | benchmarks/shared/ecore_list.c:324-357 | the payload goes in front of the current one or last, and the cursor is right exactly at the front |
| EcoreListExamples.PrependToNew | benchmarks/shared/ecore_list.c:409-415 | a prepend after which nothing is current at index 0 of one item |
| EcoreListExamples.AppendToEmptied | benchmarks/shared/ecore_list.c:375-381 | an append after which the first item is current at index 1 |
| EcoreListExamples.InsertAtSecond | benchmarks/shared/ecore_list.c:344-354 | an insert after which the item at position 1 is current at index 0 |
| EcoreListExamples.MergeBelowCurrent | benchmarks/shared/ecore_list.c:1088-1094 | a merge after which index 0 no longer is the current item's |
| EcoreListExamples.RemoveLosesItem | benchmarks/shared/ecore_list.c:474-486 | a removal that loses a second item and leaves length and index wrong |
| CityWords.HashIsBijective | benchmarks/shared/city.h:83-92 | with its second word fixed Hash128to64 is a bijection on 64-bit words |
| CityWords.ShiftMixTwice | benchmarks/shared/city.cc:69-71 | mixing with its own high bits undoes itself |
| CityWords.MulUndone | benchmarks/shared/city.h:85-91 | multiplying by a word that has an inverse is undone by it |
| CityWords.MultipliersHaveInverses | benchmarks/shared/city.cc:49-53 | all five multipliers have one |
| CityWords.RotateMovesBits | benchmarks/shared/city.cc:57-67 | bit i of a rotation is bit i + shift of the original, counted modulo 64 |
| CityWords.RotateIsInjective | benchmarks/shared/city.cc:57-67 | a rotation tells any two words apart |
| CityWords.SecondWordsCollide | benchmarks/shared/city.h:83-92 | every first word has two second words with the same Hash128to64, so that it is no bijection in its second word |
| CityHash.SeedsDoNotAddCollisions | benchmarks/shared/city.cc:201-204 | for fixed seeds two inputs collide exactly when their unseeded hashes do |
| CityHash.SeedsReachEveryHash | benchmarks/shared/city.cc:201-204 | for fixed seeds every value is the seeded hash of some unseeded one |
| CityHash.BlocksTwice | benchmarks/shared/city.cc:253-274 | two 64-byte steps are one unrolled iteration's worth of blocks |
| CityLaws.LoadSeesEveryByte | benchmarks/shared/city.cc:35-36 | two 8-byte loads are equal exactly if all their bytes are |
| CityLaws.FinishTells | benchmarks/shared/city.cc:193-194 | the last step over 64 bytes tells any two values of y and of z apart |
| CityLaws.FinishTellsV | benchmarks/shared/city.cc:193-194 | and of v.first |
| CityLaws.FinishConfuses | benchmarks/shared/city.cc:193-194 | for whatever other words, there are two values of x and two of v.second that it does not tell apart |
| CityLaws.FinishConfusesW | benchmarks/shared/city.cc:193-194 | and two of w.first and of w.second |
| CityLaws.WeakHashSame | benchmarks/shared/city.cc:111-120 | WeakHashLen32WithSeeds gives two pairs of seeds the same pair of words exactly if they are equal |
| CityLaws.WeakHashTells | benchmarks/shared/city.cc:111-120 | its first word tells any two values of each of the four words apart |
| CityLaws.StepMerges | benchmarks/shared/city.cc:181-189 | a 64-byte step leads two states to the same one exactly if z, v.second, w, the sum x + y + v.first and the next y are the same |
| CityLaws.StepTells | benchmarks/shared/city.cc:181-189 | so it tells any two values of any one word of the state apart |
| CityLaws.StepForgets | benchmarks/shared/city.cc:181-189 | and yet each state has, for every other value of v.first, one that leads to the same successor |
| CityLaws.StepReads | benchmarks/shared/city.cc:181-189 | it tells two blocks apart that differ in just one of their eight words |
| CityLaws.Tells1to3 | benchmarks/shared/city.cc:87-94 | up to three bytes with the same last one collide only if they are equal |
| CityLaws.Tells4to8 | benchmarks/shared/city.cc:83-86 | so do four to eight with the same last four |
| CityLaws.Tells9to16 | benchmarks/shared/city.cc:78-82 | so do nine to sixteen with the same last eight |
| CityLaws.Tells17to32 | benchmarks/shared/city.cc:100-107 | so do 17 to 32 with the same first sixteen and last eight |
| CityLaws.UpTo64Tells | benchmarks/shared/city.cc:153-154 | the last step up to 64 bytes tells any two values of vf, of wf and of ws apart |
| CityWideLaws.FinishMurmurSame | benchmarks/shared/city.cc:232-234 | the two words that CityMurmur returns determine the two hashes they are made from |
| CityWideLaws.MurmurBlockSame | benchmarks/shared/city.cc:222-227 | one 16-byte step tells any two states and any two pieces apart |
| CityWideLaws.MurmurKeepsState | benchmarks/shared/city.cc:221-230 | however often it runs, the loop tells any two initial states apart |
| CityWideLaws.MurmurTells | benchmarks/shared/city.cc:221-230 | two strings that differ within one piece lead the loop to different states, whatever follows that piece |
| CityWideLaws.Finish128Tells | benchmarks/shared/city.cc:289-292 | the last step over 128 bytes tells any two values of x and of y apart |
| CityWideLaws.Finish128TellsSeconds | benchmarks/shared/city.cc:289-292 | and of v.second and of w.second |
| CityWideLaws.Finish128Confuses | benchmarks/shared/city.cc:289-292 | there are always two values of v.first and of w.first that it does not tell apart, and it ignores z |
| CityWideLaws.ShortCollisions | benchmarks/shared/city.cc:306-308 | below eight bytes CityHash128 collides exactly where CityHash64 does |
| CityWideLaws.Tells8to15 | benchmarks/shared/city.cc:301-305 | eight to fifteen bytes with the same last eight collide in CityHash128 only if they are equal |
| CityKnown.Hash64Of0 | benchmarks/shared/city.cc:95 | the CityHash64 of no bytes, as a number |
| CityKnown.Hash64Of3 | benchmarks/shared/city.cc:87-94 | the CityHash64 of the bytes 0 to 2, as a number |
| CityKnown.Hash64Of7 | benchmarks/shared/city.cc:83-86 | the CityHash64 of the bytes 0 to 6, as a number |
| CityKnown.Hash64Of13 | benchmarks/shared/city.cc:78-82 | the CityHash64 of the bytes 0 to 12, as a number |
| CityKnown.Hash64Of25 | benchmarks/shared/city.cc:100-107 | the CityHash64 of the bytes 0 to 24, as a number |
| CityKnown.Hash64Of50 | benchmarks/shared/city.cc:134-155 | the CityHash64 of the bytes 0 to 49, as a number |
| CityKnown.Hash64Of100 | benchmarks/shared/city.cc:168-194 | the CityHash64 of the bytes 0 to 99, as a number |
| CityKnown.Hash64Of150 | benchmarks/shared/city.cc:168-194 | the CityHash64 of the bytes 0 to 149, as a number |
| CityKnown.SeededHash64Of7 | benchmarks/shared/city.cc:201-204 | a CityHash64WithSeeds, as a number |
| CityKnown.Hash128Of5 | benchmarks/shared/city.cc:307 | the CityHash128 of the bytes 0 to 4, as two numbers |
| CityKnown.Hash128Of12 | benchmarks/shared/city.cc:301-305 | the CityHash128 of the bytes 0 to 11, as two numbers |
| CityKnown.Hash128Of20 | benchmarks/shared/city.cc:214-216 | the CityHash128 of the bytes 0 to 19, as two numbers |
| CityKnown.Hash128Of26 | benchmarks/shared/city.cc:214-216 | the CityHash128 of the bytes 0 to 25, as two numbers |
| CityKnown.Hash128Of50 | benchmarks/shared/city.cc:217-231 | the CityHash128 of the bytes 0 to 49, as two numbers |
| CityKnown.Hash128Of200 | benchmarks/shared/city.cc:237-293 | the CityHash128 of the bytes 0 to 199, as two numbers |
| CityLoads.Reader.HashLen0to16 | benchmarks/shared/city.cc:77-96 | the hash of up to 16 bytes, reading exactly those bytes |
| CityLoads.Reader.HashLen17to32 | benchmarks/shared/city.cc:100-107 | the hash of 17 to 32 bytes, reading exactly those bytes |
| CityLoads.Reader.HalfHash | benchmarks/shared/city.cc:137-143 | the half that HashLen33to64 writes out twice, reading exactly its 16 bytes |
| CityLoads.Reader.HashLen33to64 | benchmarks/shared/city.cc:134-155 | the hash of 33 to 64 bytes, reading exactly those bytes |
| CityLoads.Reader.WeakHashLen32WithSeeds | benchmarks/shared/city.cc:109-131 | mixes exactly 32 bytes into two words |
| CityLoads.Reader.StartOver64 | benchmarks/shared/city.cc:170-177 | the initial state over long strings, reading the first 8 and the last 64 bytes |
| CityLoads.Reader.Step | benchmarks/shared/city.cc:181-190 | the 64-byte step reads exactly its block |
| CityLoads.Reader.BlockLoop | benchmarks/shared/city.cc:177-192 | the loop ends after exactly the whole blocks, all read |
| CityLoads.Reader.CityHashUpTo64 | benchmarks/shared/city.cc:157-166 | up to 64 bytes, all bytes and no others are read |
| CityLoads.Reader.CityHashOver64 | benchmarks/shared/city.cc:168-195 | over 64 bytes, all bytes and no others are read |
| CityLoads.Reader.CityHash64 | benchmarks/shared/city.cc:157-195 | at every length, every byte is read, nothing outside the buffer is, and the hash is the specified one |
| CityLoads.Reader.CityMurmur | benchmarks/shared/city.cc:206-235 | at every length, exactly the given bytes are read |
| CityLoads.Reader.MurmurStep | benchmarks/shared/city.cc:222-227 | one 16-byte step reads exactly its bytes |
| CityLoads.Reader.MurmurLong | benchmarks/shared/city.cc:217-231 | the loop ends after the last whole step, with every byte read |
| CityLoads.Reader.StartOver128 | benchmarks/shared/city.cc:242-251 | the initial state, and the 24 bytes it reads |
| CityLoads.Reader.UnrolledStep | benchmarks/shared/city.cc:253-273 | one unrolled iteration equals two 64-byte steps of CityHash64 |
| CityLoads.Reader.UnrolledLoop | benchmarks/shared/city.cc:253-274 | the loop ends after the whole 128-byte pieces |
| CityLoads.Reader.TailStep | benchmarks/shared/city.cc:280-284 | one 32-byte piece of the tail |
| CityLoads.Reader.TailLoop | benchmarks/shared/city.cc:277-285 | the overlapping tail reads every remaining byte and nothing before the buffer |
| CityLoads.Reader.CityHash128WithSeed | benchmarks/shared/city.cc:237-293 | at every length, exactly the given bytes are read |
| CityLoads.Reader.CityHash128 | benchmarks/shared/city.cc:295-309 | at every length, every byte is read and nothing outside the buffer is |
| Utf8Check.Check | examples/core/efl_net_dialer_websocket_autobahntestee.c:19-135 | accepts a string exactly if it encodes allowed Unicode scalar values, never looking past the terminator |
| Utf8Check.CheckOne | examples/core/efl_net_dialer_websocket_autobahntestee.c:25-131 | one iteration skips exactly one well-formed allowed scalar value or fails |
| Utf8Check.EncodeStartsWell | examples/core/efl_net_dialer_websocket_autobahntestee.c:46-131 | the byte ranges accept every encoding, with its width and value |
| Utf8Check.StartsWellEncodes | examples/core/efl_net_dialer_websocket_autobahntestee.c:46-131 | whatever the byte ranges accept is the encoding of a scalar value |
| Utf8Check.IsTextUnfolds | examples/core/efl_net_dialer_websocket_autobahntestee.c:23-135 | a text is empty or one scalar value followed by a text |
| Utf8Check.OneByteText | examples/core/efl_net_dialer_websocket_autobahntestee.c:27-40 | one byte is a text exactly if it is tab, LF, CR or 20 to 7F |
| Utf8Check.TwoByteText | examples/core/efl_net_dialer_websocket_autobahntestee.c:44-52 | two bytes from 80 on are one exactly in C2-DF 80-BF |
| Utf8Check.ThreeByteText | examples/core/efl_net_dialer_websocket_autobahntestee.c:54-91 | three bytes from E0 on are one exactly if they are neither overlong nor a surrogate |
| Utf8Check.FourByteText | examples/core/efl_net_dialer_websocket_autobahntestee.c:93-131 | four bytes from F0 on are one exactly if they are neither overlong nor above U+10FFFF |
| CmdSplit.CmdSplit | examples/core/efl_net_control_example.c:1234-1310 | the arguments stored in place are those of a pure tokenizer on the original text, each followed by a NUL inside the slice except the last one of a line that leaves it unterminated; argc fits, the slot behind is NULL, and nothing behind the slice is touched |
| CmdSplit.ScanNext | examples/core/efl_net_control_example.c:1243-1301 | one iteration keeps the write position behind the read position and the unread text original |
| CmdSplit.PutEscaped | examples/core/efl_net_control_example.c:1247-1262 | each escape writes the one character it stands for; any other character is written with its backslash |
| CmdSplit.WrittenIsAll | examples/core/efl_net_control_example.c:1243-1304 | the write position reaches the end of the slice, where no terminator fits, exactly for lines of which no character is dropped |
| CmdSplit.PlainLine | examples/core/efl_net_control_example.c:1243-1304 | without backslashes such a line is one without quotes and NULs, and its last argument is open unless it ends in a space |
| CmdSplit.LastArgument | examples/core/efl_net_control_example.c:1303-1309 | what the closing terminator completes, and exactly when the last argument goes without |
| CmdSplit.EndedReadsBack | examples/core/efl_net_control_example.c:1380-1384 | text that a NUL follows in memory reads back up to its own first NUL |
| CmdSplit.OpenRunsOn | examples/core/efl_net_control_example.c:1380-1384 | text that no NUL follows never reads back as itself |
| CmdSplit.ArgumentsReadBack | examples/core/efl_net_control_example.c:1234-1310 | a C string read from memory at an argument is its token exactly if the token holds no NUL and is terminated in the slice or by the byte behind it |
| CmdSplit.CleanLineReadsBack | examples/core/efl_net_control_example.c:1374-1380 | with a NUL behind the slice every argument of a line without NULs reads back |
| CmdSplit.CmdLine | examples/core/efl_net_control_example.c:1367-1380 | the caller's arguments read back under exactly that condition, and a trailing newline guarantees the byte behind the slice; an empty line means quit |
| CmdSplit.LastArgumentRunsOn | examples/core/efl_net_control_example.c:1303-1304 | a line whose last argument reads on into the memory behind it |
| CmdSplit.QuotedNulIsCut | examples/core/efl_net_control_example.c:1234-1310 | a line whose argument reads back cut short |
| CmdSplit.SplitQuoted | examples/core/efl_net_control_example.c:1234-1310 | splitting what has been quoted gives back any list of arguments |
| CmdQuoting.SplitTyped | examples/core/efl_net_control_example.c:1243-1309 | for arguments typed bare, in either kind of quotes or in a mixture, with the escapes of LF, TAB, CR, FF, both quotes and the backslash, and with any of the six spaces in between, splitting gives what was meant; a backslash in front of any other character stays |
| CmdQuoting.EscapesByName | examples/core/efl_net_control_example.c:1247-1262 | what each escape stands for, one by one |
| CmdQuoting.SpacesByName | examples/core/efl_net_control_example.c:1280-1286 | a character that is no quote, backslash or NUL separates exactly if it is one of the six spaces |

## Left out

- EvasListSort.Sort: a NULL comparison function, which the original answers by returning NULL, is not modelled.
- EcoreNodes.NodeMergeSort: the product of the comparator's result and the order is not bounded to C's int, so its overflow for INT_MIN is not modelled.
- EcoreNodes.DListMergeSort: like ecore_list_mergesort and both merges the original stores the factor -1 of a descending order in a `char` (benchmarks/shared/ecore_list.c:1041, 1086, 1953, 1998); where plain `char` is unsigned that is 255 and the direction is lost, which is not modelled.
- EvasMempoolHeap.PoolNew: slots are counted, not laid out; rounding of the item size and the bytes of a slot beyond its first word are not modelled.
- EvasMempoolHeap.Mempool.Free: freeing a block that is not live is outside the contract, as it is in the original.
- EvasHashHeap.Add: the copied key and the caller's key are the same value here; who owns the bytes is not modelled.
- EvasStringshareHeap.DelString: a handle whose element has been freed reads freed memory in the original; the model aborts there as for a string that was never shared.
- EvasStringshareHeap.AddString: the reference count is unbounded.
- EcoreSheapArray.Sheap.Insert: what the memory holds after a write past the array is not modelled; the model stops there and reports it.
- EcoreSheapArray.Sheap.Item: a negative index, with which the original reads in front of its array, is not modelled.
- EcoreSheapArray.Sheap.Sort: its allocation, and that of a rebuild, is taken to succeed, as the original does not look.
- EcoreList.EcoreList.Append: allocating the node is taken to succeed, as the original does not look.
- EcoreList.RunScript: what further steps make of a list on which a walk has met a NULL payload is not modelled, because its cursor no longer fits its index.
- CityLaws.StepTells: how the hashes of two strings of more than 64 bytes compare that differ in one byte is not stated, because a later step may merge their states again (`StepForgets`).
- CityLaws.UpTo64Tells: from 33 to 64 bytes every load goes into two or more of the words mixed last; the law is about those words, and about all of them but vs.
- CityLoads.Reader.CityHash128: lengths that do not fit a signed size are not modelled.
- CmdSplit.CmdSplit: the argument array is sized for one argument per byte, as the original allocates it; a failing allocation is not modelled.
- EcoreListJoins.MergeLists: lists that are not sorted, which the original excludes, are not modelled; the cursor of a doubly linked list after a merge is not either.
- EvasStringshareRuns.RunScript: a new element, like a new chunk in EvasMempoolRuns.RunScript, is told apart from all earlier ones; the original's malloc may return the address of a freed one again.
- ecore_dlist_previous, ecore_dlist_last_remove and ecore_dlist_index_goto are not modelled: their index conventions differ.
- CityHash64WithSeed, evas_list_find, the accessors of the lists and evas_mempool_calloc are not modelled: one call each.
- Free callbacks, NULL-argument warnings, the builds without pools, evas_hash_foreach and evas_object_list_find are not modelled.
- The drivers, the other examples and the analysis templates are not modelled.
