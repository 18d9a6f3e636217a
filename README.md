# Farm-equipment rental bot: the algorithm library and its handlers, in Dafny

The rental bot answers Telegram commands about a catalogue of farm equipment. It searches the catalogue by name prefix with a trie. It ranks equipment with merge, quick and heap sorts and with a binary-heap priority queue. It finds nearby equipment by great-circle distance or by Dijkstra over a graph of nearby sites. It plans rentals with knapsack and interval-scheduling optimisers. This project models that library and the four handlers that combine it:

- `/search` looks items up by prefix;
- `/recommend` ranks the catalogue;
- `/nearby` and a shared location find the nearest items;
- the command router splits a message into a command and its arguments.

It proves, of each operation, what the code promises.

One Dafny module stands for each source file:

| module | file (under `telegram-bot/`) | form |
|---|---|---|
| `Tries` (with `TrieNodes`, `TrieCollect`, `TrieDelete`, `TrieFuzzy`) | `algorithms/search/trie.js` | class `Trie` over a map from paths to nodes |
| `SearchHandling` | `handlers/searchHandler.js` | class `SearchHandler` holding a `Trie` |
| `MergeSorting` | `algorithms/sorting/mergeSort.js` | functions, and methods for the merge loop and the chunked sort |
| `QuickSorting`, `HeapSorting` (with `InPlace`) | `algorithms/sorting/quickSort.js`, `heapSort.js` | methods sorting an `array` in place |
| `PriorityQueues` | `algorithms/dataStructures/priorityQueue.js` | class `PriorityQueue` over a heap sequence |
| `HashTables` | `algorithms/dataStructures/hashTable.js` | class `HashTable` with an `array` of buckets |
| `SearchTrees` | `algorithms/search/binarySearchTree.js` | class `BinarySearchTree` over a tree value |
| `BinarySearching` | `algorithms/search/binarySearch.js` | loop methods, checked against the recursive search |
| `Knapsack`, `PriceOptimizing` | `algorithms/dynamic/knapsack.js`, `priceOptimizer.js` | methods filling `array2`/`array` tables |
| `Bookings` | `algorithms/greedy/bookingOptimizer.js` | loop methods and functions |
| `ShortestPaths`, `GraphBuilding` | `algorithms/graph/dijkstra.js`, `graphBuilder.js` | loop methods over maps; class `GraphBuilder` |
| `Locating`, `Recommending`, `Commands` | `handlers/locationHandler.js`, `recommendHandler.js`, `commandHandler.js` | functions and methods |

`Common`, `Text`, `Ordering`, `Comparators` and `Catalog` are shared:

- `Text` holds the string operations: `toLowerCase`, `trim`, `split(' ')`, `join(' ')` and `includes`.
- `Ordering` and `Comparators` say when a `(a, b) => number` function is a valid comparator. They define sorted and stable for one.
- `Catalog` holds the equipment row.

A few modelling choices recur:

- Numbers are `real`, and counts, indices, weights and capacities are `int`.
- `x || d` on a numeric field, which falls back to `d` when the field is missing or zero, becomes `OrElse(x, d)`.
- `Array.prototype.sort` is stable, and wherever the code calls it the model sorts with `MergeSort`.
- `Text.Lower` folds only the ASCII letters `A`–`Z`. Every other character is kept as it is (see "Left out").
- The `/recommend popular` branch builds a `MaxPriorityQueue` whose comparator returns `scoreA - scoreB`. The queue's root is the element that comparator puts first, so that branch lists the least popular items first. `Recommending.Recommend` models this as written; the intended ranking is `Recommending.MostPopular` (see "Findings").

## Model

| member | source | states |
|---|---|---|
| Ordering.SortedUnique | telegram-bot/algorithms/sorting/mergeSort.js:97-98 | two runs sorted by one valid comparator whose tie classes agree are equal, which is what "a stable sort preserves original order" pins down |
| Comparators.Sign | telegram-bot/algorithms/sorting/mergeSort.js:29 | `a > b ? 1 : a < b ? -1 : 0` is 1, -1 or 0, negative exactly when `a < b` and zero exactly when `a == b` |
| Comparators.CompareByMeaning | telegram-bot/algorithms/sorting/mergeSort.js:25-31 | the field comparator is a valid comparator; under it sorted means the field non-decreasing for 'asc' and non-increasing otherwise; ties are equal fields |
| Comparators.AscendingMeaning | telegram-bot/handlers/locationHandler.js:131 | `(a, b) => a.f - b.f` is a valid comparator; sorted under it means the field non-decreasing; ties are equal fields |
| Comparators.DefaultComparatorValid | telegram-bot/algorithms/sorting/mergeSort.js:24-34 | without a caller comparator, `sort` always compares with a valid comparator |
| Text.Lower | telegram-bot/handlers/searchHandler.js:76 | `toLowerCase` keeps the length, maps each character through the case fold and leaves no upper-case letter |
| Text.LowerIdempotent | telegram-bot/handlers/searchHandler.js:76 | lower-casing twice is lower-casing once |
| Text.TrimEmptyIff | telegram-bot/handlers/searchHandler.js:62 | `s.trim() === ''` exactly when every character of `s` is white space |
| Text.TrimIsSlice | telegram-bot/handlers/locationHandler.js:38 | the trimmed string is a contiguous slice of the input |
| Text.TrimEnds | telegram-bot/handlers/locationHandler.js:38 | the trimmed string is empty or starts and ends with a non-space |
| Text.Split | telegram-bot/handlers/commandHandler.js:23 | `split(' ')` yields at least one piece |
| Text.SplitPiecesFree | telegram-bot/handlers/searchHandler.js:41 | no piece of a split contains the separator |
| Text.JoinSplit | telegram-bot/handlers/commandHandler.js:24 | joining the pieces of a split with the same separator gives the string back |
| Text.SplitHead | telegram-bot/handlers/commandHandler.js:23 | the first piece is the whole string when there is no separator, otherwise everything before the first separator, and there are then at least two pieces |
| Text.IncludesIff | telegram-bot/handlers/locationHandler.js:47 | `includes` holds exactly when the needle occurs at some index |
| Text.IncludesEmpty | telegram-bot/handlers/locationHandler.js:47 | every string includes the empty string |
| InPlace.Swap | telegram-bot/algorithms/sorting/quickSort.js:80 | the destructuring swap leaves the array as the old contents with the two cells exchanged |
| InPlace.RangePermutation | telegram-bot/algorithms/sorting/quickSort.js:52-69 | a run of swaps inside `[low, high]` keeps the multiset of that range |
| InPlace.RangeKeeps | telegram-bot/algorithms/sorting/quickSort.js:52-69 | a property every cell of the range had before a run of swaps inside it holds of every cell afterwards |
| MergeSorting.MergePermutation | telegram-bot/algorithms/sorting/mergeSort.js:67-95 | the merge is a rearrangement of the two runs together |
| MergeSorting.MergeSorted | telegram-bot/algorithms/sorting/mergeSort.js:73-92 | merging two runs sorted by a valid comparator gives a sorted run |
| MergeSorting.MergeStable | telegram-bot/algorithms/sorting/mergeSort.js:74 | taking the left element on a tie (`<= 0`) keeps every tie class in order, the left run's members before the right run's |
| MergeSorting.MergeLoop | telegram-bot/algorithms/sorting/mergeSort.js:67-95 | the two-index loop and the two copy loops produce exactly the merge of the two runs |
| MergeSorting.MergeHeads | telegram-bot/algorithms/sorting/mergeSort.js:73-81 | the two-index loop stops with one run used up, and its output followed by the merge of what is left is the whole merge |
| MergeSorting.CopyRest | telegram-bot/algorithms/sorting/mergeSort.js:84-92 | a copy loop appends the rest of one run from its index on |
| MergeSorting.MergeSortCorrect | telegram-bot/algorithms/sorting/mergeSort.js:45-57 | under a valid comparator merge sort is sorted and stable: each tie class keeps its input order |
| MergeSorting.MergeSortUnique | telegram-bot/algorithms/sorting/mergeSort.js:45-57 | any sorted, stable rearrangement of the input equals the merge sort, so the result is determined by input and comparator |
| MergeSorting.SortedByKey | telegram-bot/handlers/locationHandler.js:131 | sorting with `(a, b) => a.f - b.f` keeps the items, puts the field in ascending order and keeps items with equal fields in input order |
| MergeSorting.KeptSmallest | telegram-bot/handlers/locationHandler.js:131-132 | cutting that ascending sort after `k` items leaves out no item smaller than one kept |
| MergeSorting.Sort | telegram-bot/algorithms/sorting/mergeSort.js:21-37 | a null array gives `[]`, at most one element comes back unchanged, otherwise the result is a rearrangement that is sorted and stable under the chosen comparator (caller's, field, or natural order); `compareFn` and `sortBy` default to null and `order` to 'asc' |
| MergeSorting.SortByRating | telegram-bot/algorithms/sorting/mergeSort.js:103-117 | a rearrangement with ratings non-increasing for 'desc' and non-decreasing otherwise, equal ratings in catalogue order; `order` defaults to 'desc' |
| MergeSorting.SortChunks | telegram-bot/algorithms/sorting/mergeSort.js:124-129 | the chunk loop yields sorted runs whose concatenation is a stable rearrangement of the input, at least one run for non-empty input |
| MergeSorting.MergePass | telegram-bot/algorithms/sorting/mergeSort.js:132-143 | one pairwise round leaves fewer runs (at least one), keeps the elements, and keeps sorted runs sorted and tie classes in order |
| MergeSorting.ChunkStartsAsWritten | telegram-bot/algorithms/sorting/mergeSort.js:126 | the chunking loop index as written: every chunk start it visits lies below `arr.length` |
| MergeSorting.ChunkLoopNeverEnds | telegram-bot/algorithms/sorting/mergeSort.js:126 | with `chunkSize <= 0` and a non-empty array no number of steps ends the chunking loop |
| MergeSorting.ChunkLoopEnds | telegram-bot/algorithms/sorting/mergeSort.js:126 | with `chunkSize > 0` the loop ends within `arr.length` steps and visits the multiples of `chunkSize` |
| MergeSorting.ExternalMergeSort | telegram-bot/algorithms/sorting/mergeSort.js:119-146 | the result is a rearrangement of the input and, under a valid comparator, exactly the merge sort of it; a non-positive `chunkSize` sorts the array whole; `chunkSize` defaults to 1000 |
| MergeSorting.Merge | telegram-bot/algorithms/sorting/mergeSort.js:67-95 | the merge has as many elements as the two runs together |
| MergeSorting.MergeSort | telegram-bot/algorithms/sorting/mergeSort.js:45-57 | `mergeSort` returns a rearrangement of its input of the same length |
| MergeSorting.MergeSortCorrectIf | telegram-bot/algorithms/sorting/mergeSort.js:45-57 | under a valid comparator `mergeSort` returns a sorted, stable arrangement |
| MergeSorting.RatingCompareValid | telegram-bot/algorithms/sorting/mergeSort.js:103-110 | the `sortByRating` comparator (`rating \|\| 0`, either order) is valid and ties exactly equal ratings |
| QuickSorting.Partition | telegram-bot/algorithms/sorting/quickSort.js:71-87 | Lomuto's scheme rearranges only `[low, high]`, puts the old `arr[high]` at the returned index, every cell before it compares `<= 0` with it and every cell after it `> 0` |
| QuickSorting.QuickSortStep | telegram-bot/algorithms/sorting/quickSort.js:52-61 | a partition followed by sorting both sides sorts the whole range |
| QuickSorting.QuickSortRange | telegram-bot/algorithms/sorting/quickSort.js:52-61 | `quickSort(arr, low, high)` rearranges only the cells `[low, high]` and, under a valid comparator, leaves them sorted |
| QuickSorting.Sort | telegram-bot/algorithms/sorting/quickSort.js:23-43 | the result is a rearrangement of the input, unchanged for at most one element, and sorted under the chosen comparator when it is valid; `compareFn` and `sortBy` default to null and `order` to 'asc' |
| QuickSorting.MedianSwappedPermutes | telegram-bot/algorithms/sorting/quickSort.js:93-108 | the median-of-three swaps only rearrange the range |
| QuickSorting.MedianSwappedMiddle | telegram-bot/algorithms/sorting/quickSort.js:95-108 | on three distinct cells the swaps leave the middle of the three ordered values at `high` |
| QuickSorting.MedianSwaps | telegram-bot/algorithms/sorting/quickSort.js:97-105 | under a valid comparator that middle value is a median of `arr[low]`, `arr[mid]` and `arr[high]` |
| QuickSorting.PartitionWithMedianPivot | telegram-bot/algorithms/sorting/quickSort.js:93-110 | a partition of `[low, high]` as above whose pivot, for a range of three or more cells and a valid comparator, is the median of the first, middle and last cells |
| QuickSorting.CriterionCompare | telegram-bot/algorithms/sorting/quickSort.js:120-133 | one criterion's comparison is negative exactly when the field is smaller ('asc') or larger ('desc'), and zero exactly on equal fields |
| QuickSorting.CompareZero | telegram-bot/algorithms/sorting/quickSort.js:119-140 | two elements tie exactly when every criterion's field is equal |
| QuickSorting.CompareFirst | telegram-bot/algorithms/sorting/quickSort.js:134-136 | the comparison is that of the first criterion on which the two elements differ |
| QuickSorting.MultiCriteriaValid | telegram-bot/algorithms/sorting/quickSort.js:119-140 | the multi-criteria comparator is always a valid comparator |
| QuickSorting.MultiCriteriaSort | telegram-bot/algorithms/sorting/quickSort.js:118-141 | the result is a rearrangement of the input, sorted under the multi-criteria comparator |
| HeapSorting.Largest | telegram-bot/algorithms/sorting/heapSort.js:74-86 | the cell `heapify` picks is `i` itself or a child of `i` inside the heap |
| HeapSorting.LargestIsMax | telegram-bot/algorithms/sorting/heapSort.js:74-86 | under a valid comparator the picked cell is not less than `i` nor than any child of `i` |
| HeapSorting.Heapify | telegram-bot/algorithms/sorting/heapSort.js:73-93 | rearranges only cells `i` to `heapSize - 1`, and restores the heap order when it was broken only at `i` |
| HeapSorting.BuildHeap | telegram-bot/algorithms/sorting/heapSort.js:52-54 | the build loop rearranges the array into a max-heap under a valid comparator |
| HeapSorting.HeapRootMax | telegram-bot/algorithms/sorting/heapSort.js:57-59 | in a heap no cell is greater than the root, so the swap moves a greatest element behind the heap |
| HeapSorting.ExtractAll | telegram-bot/algorithms/sorting/heapSort.js:57-63 | the extraction loop turns a heap into a sorted rearrangement of it |
| HeapSorting.ExtractDone | telegram-bot/algorithms/sorting/heapSort.js:57 | once no heap is left, the extracted tail is the whole array, sorted |
| HeapSorting.HeapSortInPlace | telegram-bot/algorithms/sorting/heapSort.js:47-64 | `heapSort(arr)` leaves the array a rearrangement of its old contents, sorted under a valid comparator |
| HeapSorting.Sort | telegram-bot/algorithms/sorting/heapSort.js:20-40 | the result is a rearrangement of the input, unchanged for at most one element, sorted under the chosen comparator when it is valid; `compareFn` and `sortBy` default to null and `order` to 'asc' |
| BinarySearching.DefaultCompare | telegram-bot/algorithms/search/binarySearch.js:27-32 | the fallback comparator is zero exactly on equal values and negative exactly when the element is smaller |
| BinarySearching.AscendingArranged | telegram-bot/algorithms/search/binarySearch.js:27-32 | an ascending list of numbers is arranged for the fallback comparator around any target |
| BinarySearching.SearchRecursive | telegram-bot/algorithms/search/binarySearch.js:59-80 | the result is -1 or an index in `[left, right]` whose element compares equal to the target |
| BinarySearching.SearchRecursiveComplete | telegram-bot/algorithms/search/binarySearch.js:59-80 | on an arranged list -1 comes back only when no element of `[left, right]` compares equal |
| BinarySearching.Search | telegram-bot/algorithms/search/binarySearch.js:20-48 | the loop returns the same index as the recursive search over the whole list (-1 for an empty list) |
| BinarySearching.SearchCorrect | telegram-bot/algorithms/search/binarySearch.js:20-48 | `search` returns -1 or an index comparing equal; on an arranged list -1 exactly when no index compares equal |
| BinarySearching.FindFirstOccurrence | telegram-bot/algorithms/search/binarySearch.js:88-107 | -1 or an index holding the target; on an ascending list -1 exactly when the target is absent, and otherwise no earlier index holds it |
| BinarySearching.FindLastOccurrence | telegram-bot/algorithms/search/binarySearch.js:115-134 | -1 or an index holding the target; on an ascending list -1 exactly when the target is absent, and otherwise no later index holds it |
| BinarySearching.FindInsertionPoint | telegram-bot/algorithms/search/binarySearch.js:201-216 | an index in `[0, arr.length]`; on an ascending list everything before it is below the target and everything from it on is not |
| BinarySearching.Price | telegram-bot/algorithms/search/binarySearch.js:162 | `price_per_day \|\| price \|\| 0`: the daily price unless it is zero, then the plain price |
| BinarySearching.FindFirstPrice | telegram-bot/algorithms/search/binarySearch.js:155-173 | -1 or an index priced at least the target; on a price-sorted list every index before it (every index, for -1) is priced below the target |
| BinarySearching.FindLastPrice | telegram-bot/algorithms/search/binarySearch.js:175-193 | -1 or an index priced at most the target; on a price-sorted list every index after it is priced above the target |
| BinarySearching.InPriceRangeMembers | telegram-bot/algorithms/search/binarySearch.js:143-153 | the reference filter keeps exactly the items priced within `[minPrice, maxPrice]` |
| BinarySearching.PriceRangeSlice | telegram-bot/algorithms/search/binarySearch.js:152 | a list below the range before `first`, within it up to `last` and above it after that has exactly the slice between in range |
| BinarySearching.SortedWithin | telegram-bot/algorithms/search/binarySearch.js:152 | on a price-sorted list everything between an item at or above the minimum and one at or below the maximum is within the range |
| BinarySearching.PriceRangeEmpty | telegram-bot/algorithms/search/binarySearch.js:146-152 | when either bound search misses, or the bounds cross, no item is within the range |
| BinarySearching.SearchByPriceRange | telegram-bot/algorithms/search/binarySearch.js:143-153 | the result holds only catalogue items and, on a price-sorted list, is exactly the items priced within the range, in order |
| BinarySearching.InPriceRangeAll | telegram-bot/algorithms/search/binarySearch.js:143-153 | when every price lies within the range, every item is in range |
| BinarySearching.InPriceRangeNone | telegram-bot/algorithms/search/binarySearch.js:143-153 | when no price lies within the range, no item is |
| PriorityQueues.MakeEntry | telegram-bot/algorithms/dataStructures/priorityQueue.js:36 | the element carries the item, with the given priority or else the item itself as priority |
| PriorityQueues.DefaultQueueComparator | telegram-bot/algorithms/dataStructures/priorityQueue.js:20-23 | the default comparators are valid and put the least value first for 'min', the greatest for 'max' |
| PriorityQueues.RootMin | telegram-bot/algorithms/dataStructures/priorityQueue.js:65-69 | in a heap the root's priority comes before or ties with every element's |
| PriorityQueues.RisingDone | telegram-bot/algorithms/dataStructures/priorityQueue.js:91-96 | `_bubbleUp` stops at the root or below a parent not after it, and the heap is then whole and a rearrangement of the old one |
| PriorityQueues.Smallest | telegram-bot/algorithms/dataStructures/priorityQueue.js:109-121 | the cell `_bubbleDown` picks is `index` or one of its children inside the heap |
| PriorityQueues.SmallestIsMin | telegram-bot/algorithms/dataStructures/priorityQueue.js:109-121 | under a valid comparator the picked cell comes before or ties with `index` and both children |
| PriorityQueues.DrainedItems | telegram-bot/algorithms/dataStructures/priorityQueue.js:160-177 | what `topK` takes and what it leaves split the queued items; the taken items are in comparator order and none comes after an item left behind |
| PriorityQueues.PriorityQueue.constructor | telegram-bot/algorithms/dataStructures/priorityQueue.js:15-27 | an empty heap, with the caller's comparator or the default for `order`; `compareFn` defaults to null and `order` to 'min' |
| PriorityQueues.PriorityQueue.Min | telegram-bot/algorithms/dataStructures/priorityQueue.js:187-191 | an empty 'min' queue with the caller's comparator or `a - b` |
| PriorityQueues.PriorityQueue.Max | telegram-bot/algorithms/dataStructures/priorityQueue.js:196-200 | an empty 'max' queue with the caller's comparator or `b - a` |
| PriorityQueues.PriorityQueue.Peek | telegram-bot/algorithms/dataStructures/priorityQueue.js:65-69 | `null` exactly when empty, otherwise the root's item, whose priority comes before or ties with every element's |
| PriorityQueues.PriorityQueue.IsEmpty | telegram-bot/algorithms/dataStructures/priorityQueue.js:75-77 | empty exactly when `peek` has nothing to give |
| PriorityQueues.PriorityQueue.Size | telegram-bot/algorithms/dataStructures/priorityQueue.js:83-85 | the size is zero exactly when the queue is empty |
| PriorityQueues.PriorityQueue.BubbleUp | telegram-bot/algorithms/dataStructures/priorityQueue.js:90-102 | from a heap broken only above `index`, leaves a heap that rearranges the old elements |
| PriorityQueues.PriorityQueue.BubbleDown | telegram-bot/algorithms/dataStructures/priorityQueue.js:107-129 | from a heap broken only below `index`, leaves a heap that rearranges the old elements |
| PriorityQueues.PriorityQueue.Enqueue | telegram-bot/algorithms/dataStructures/priorityQueue.js:35-39 | the heap order holds again and the queue holds one more element, the new entry |
| PriorityQueues.PriorityQueue.Dequeue | telegram-bot/algorithms/dataStructures/priorityQueue.js:46-58 | returns what `peek` would have; an empty queue stays empty, otherwise exactly the old root is gone and the heap order holds |
| PriorityQueues.PriorityQueue.ToArray | telegram-bot/algorithms/dataStructures/priorityQueue.js:146-152 | empties the queue and returns every queued item, in comparator order |
| PriorityQueues.PriorityQueue.TopK | telegram-bot/algorithms/dataStructures/priorityQueue.js:160-177 | returns `min(k, size)` items (none for `k <= 0`) taken from the front in comparator order, and the queue keeps its size, holding what was left plus each taken item as its own priority |
| PriorityQueues.PriorityQueue.RestoreAll | telegram-bot/algorithms/dataStructures/priorityQueue.js:171-174 | re-enqueues each item with `_getPriority(item)` as its priority, keeping the heap order |
| HashTables.Slot | telegram-bot/algorithms/dataStructures/hashTable.js:36 | the bucket index of a key always lies in `[0, size)` |
| HashTables.Position | telegram-bot/algorithms/dataStructures/hashTable.js:97 | `findIndex` returns -1 or an index holding the key, and no earlier entry (no entry, for -1) holds it |
| HashTables.PositionUnique | telegram-bot/algorithms/dataStructures/hashTable.js:54 | in a bucket without repeated keys the entry holding the key is the one found |
| HashTables.LookupAppend | telegram-bot/algorithms/dataStructures/hashTable.js:61 | pushing an entry for a missing key makes it found with its value and changes no other lookup |
| HashTables.LookupReplace | telegram-bot/algorithms/dataStructures/hashTable.js:54-57 | overwriting a present key's entry changes its value and no other lookup |
| HashTables.LookupRemove | telegram-bot/algorithms/dataStructures/hashTable.js:98-99 | splicing out an entry makes its key missing and changes no other lookup |
| HashTables.TableEntries | telegram-bot/algorithms/dataStructures/hashTable.js:111-147 | the entries of all buckets are exactly the key/value pairs the table maps |
| HashTables.KeysApart | telegram-bot/algorithms/dataStructures/hashTable.js:45-63 | no two entries anywhere in the table share a key |
| HashTables.LoadFactor | telegram-bot/algorithms/dataStructures/hashTable.js:46 | `count / size >= 0.75` holds exactly when `4 * count >= 3 * size` |
| HashTables.HashTable.constructor | telegram-bot/algorithms/dataStructures/hashTable.js:12-17 | `size` empty buckets, no entries, an empty mapping |
| HashTables.HashTable.Set | telegram-bot/algorithms/dataStructures/hashTable.js:45-63 | the mapping becomes the old one with `key` bound to `value`; the count grows by one exactly for a new key; the table doubles exactly when it was three quarters full |
| HashTables.HashTable.Put | telegram-bot/algorithms/dataStructures/hashTable.js:50-62 | with room left, overwrites or pushes the entry in the same buckets: the mapping gains `key := value` and the count grows exactly for a new key |
| HashTables.HashTable.Get | telegram-bot/algorithms/dataStructures/hashTable.js:71-77 | the value bound to `key`, or nothing when it is unbound |
| HashTables.HashTable.Has | telegram-bot/algorithms/dataStructures/hashTable.js:84-86 | true exactly when `key` is bound |
| HashTables.HashTable.Delete | telegram-bot/algorithms/dataStructures/hashTable.js:93-105 | reports whether the key was bound, unbinds it, and lowers the count by one exactly when it was |
| HashTables.HashTable.EntriesAreContents | telegram-bot/algorithms/dataStructures/hashTable.js:111-147 | the stored entries number `count` and are exactly the pairs of the mapping |
| HashTables.HashTable.Keys | telegram-bot/algorithms/dataStructures/hashTable.js:111-119 | `count` keys, bucket by bucket, and a key is listed exactly when it is bound |
| HashTables.HashTable.KeysAreContents | telegram-bot/algorithms/dataStructures/hashTable.js:111-119 | a listing of the stored keys holds every bound key and no other |
| HashTables.HashTable.Values | telegram-bot/algorithms/dataStructures/hashTable.js:125-133 | `count` values, bucket by bucket, and a value is listed exactly when some key is bound to it |
| HashTables.HashTable.ValuesAreContents | telegram-bot/algorithms/dataStructures/hashTable.js:125-133 | a listing of the stored values holds the value of every bound key and no other |
| HashTables.HashTable.Entries | telegram-bot/algorithms/dataStructures/hashTable.js:139-147 | `count` pairs, bucket by bucket, and a pair is listed exactly when the mapping holds it |
| HashTables.HashTable.PairsAreContents | telegram-bot/algorithms/dataStructures/hashTable.js:139-147 | a listing of the stored pairs holds exactly the pairs of the mapping |
| HashTables.HashTable.Clear | telegram-bot/algorithms/dataStructures/hashTable.js:152-155 | fresh empty buckets of the same number; no entries and an empty mapping |
| HashTables.HashTable.Resize | telegram-bot/algorithms/dataStructures/hashTable.js:160-171 | twice the buckets, with the mapping and the count unchanged after every entry is set again |
| HashTables.HashTable.Reinsert | telegram-bot/algorithms/dataStructures/hashTable.js:167-169 | re-setting one old bucket's entries into the doubled table stores exactly them on top of the entries moved so far |
| SearchTrees.Size | telegram-bot/algorithms/search/binarySearchTree.js:15-16 | a tree has no nodes exactly when it is empty |
| SearchTrees.OrderedUnique | telegram-bot/algorithms/search/binarySearchTree.js:57-65 | in an ordered tree no two stored elements compare equal |
| SearchTrees.Find | telegram-bot/algorithms/search/binarySearchTree.js:80-92 | a hit is a stored element comparing equal to the target |
| SearchTrees.FindComplete | telegram-bot/algorithms/search/binarySearchTree.js:80-92 | in an ordered tree the search misses exactly when no stored element compares equal |
| SearchTrees.InsertAddsOnly | telegram-bot/algorithms/search/binarySearchTree.js:50-68 | inserting adds no element but `data` |
| SearchTrees.InsertOrdered | telegram-bot/algorithms/search/binarySearchTree.js:50-68 | inserting keeps the tree ordered |
| SearchTrees.InsertSize | telegram-bot/algorithms/search/binarySearchTree.js:50-68 | inserting adds a node exactly when the search for `data` misses |
| SearchTrees.InsertElems | telegram-bot/algorithms/search/binarySearchTree.js:61-64 | on an ordered tree `data` replaces the element equal to it, if any, and is otherwise added |
| SearchTrees.MinOf | telegram-bot/algorithms/search/binarySearchTree.js:144-149 | the leftmost element is a stored element |
| SearchTrees.MinOfLeast | telegram-bot/algorithms/search/binarySearchTree.js:131 | in an ordered tree the leftmost element has the least key, so it is the in-order successor |
| SearchTrees.DeleteCorrect | telegram-bot/algorithms/search/binarySearchTree.js:106-139 | deleting keeps the tree ordered, removes exactly the element equal to the target, and removes a node exactly when the search hits |
| SearchTrees.InOrderElems | telegram-bot/algorithms/search/binarySearchTree.js:162-168 | the in-order listing holds exactly the stored elements |
| SearchTrees.TraversalsCorrect | telegram-bot/algorithms/search/binarySearchTree.js:156-202 | the three traversals list the same nodes, one entry per node |
| SearchTrees.InOrderIncreasing | telegram-bot/algorithms/search/binarySearchTree.js:156-168 | on an ordered tree the in-order listing is strictly increasing |
| SearchTrees.RangeSearchCorrect | telegram-bot/algorithms/search/binarySearchTree.js:216-233 | on an ordered tree the pruned range search equals the in-order listing filtered to keys between `min` and `max` |
| SearchTrees.RangeSide | telegram-bot/algorithms/search/binarySearchTree.js:222-231 | the side the search skips holds nothing in range |
| SearchTrees.Height | telegram-bot/algorithms/search/binarySearchTree.js:243-246 | the height is -1 exactly for the empty tree and never below -1 |
| SearchTrees.HeightBelowSize | telegram-bot/algorithms/search/binarySearchTree.js:239-246 | a tree is never as tall as it has nodes |
| SearchTrees.BalancedHeightCorrect | telegram-bot/algorithms/search/binarySearchTree.js:255-267 | `_isBalanced` gives -1 exactly for an unbalanced tree and one more than the height otherwise |
| SearchTrees.BinarySearchTree.constructor | telegram-bot/algorithms/search/binarySearchTree.js:14-25 | an empty tree of size 0 |
| SearchTrees.BinarySearchTree.Insert | telegram-bot/algorithms/search/binarySearchTree.js:44-48 | returns true; `data` replaces its equal or is added, and `size` grows exactly when the search for `data` missed |
| SearchTrees.BinarySearchTree.InsertNode | telegram-bot/algorithms/search/binarySearchTree.js:50-68 | returns the inserted tree and takes one off `size` exactly when it replaced an equal element |
| SearchTrees.BinarySearchTree.Search | telegram-bot/algorithms/search/binarySearchTree.js:76-78 | a stored element comparing equal to the target, and `null` exactly when none does |
| SearchTrees.BinarySearchTree.Delete | telegram-bot/algorithms/search/binarySearchTree.js:100-104 | true exactly when an element equal to the target was stored; that element is removed and `size` goes down by one exactly then |
| SearchTrees.BinarySearchTree.DeleteNode | telegram-bot/algorithms/search/binarySearchTree.js:106-139 | returns the deleted tree and moves `size` exactly as the node count moves, successor case included |
| SearchTrees.BinarySearchTree.InOrder | telegram-bot/algorithms/search/binarySearchTree.js:156-160 | `size` elements in strictly increasing order, exactly the stored ones |
| SearchTrees.BinarySearchTree.PreOrder | telegram-bot/algorithms/search/binarySearchTree.js:173-177 | `size` elements, the same ones as the in-order listing |
| SearchTrees.BinarySearchTree.PostOrder | telegram-bot/algorithms/search/binarySearchTree.js:190-194 | `size` elements, the same ones as the in-order listing |
| SearchTrees.BinarySearchTree.TreeHeight | telegram-bot/algorithms/search/binarySearchTree.js:239-241 | between -1 and `size - 1`, and -1 exactly when the tree is empty |
| SearchTrees.BinarySearchTree.RangeSearch | telegram-bot/algorithms/search/binarySearchTree.js:210-214 | the in-order listing filtered to keys between `min` and `max` |
| SearchTrees.BinarySearchTree.IsBalanced | telegram-bot/algorithms/search/binarySearchTree.js:251-253 | true exactly when every node's subtrees differ in height by at most one |
| SearchTrees.DeleteRemovesOnly | telegram-bot/algorithms/search/binarySearchTree.js:106-139 | deleting adds no element |
| TrieNodes.MarkWord | telegram-bot/algorithms/search/trie.js:42-47 | marking the end of the walk stores that word and only it, with no node added or removed |
| TrieNodes.WalkedEnd | telegram-bot/algorithms/search/trie.js:31-39 | the walk reaches the word's node, which ends a word exactly when the word was stored before; it stores no word and adds only nodes on the word's path |
| TrieNodes.InsertedWords | telegram-bot/algorithms/search/trie.js:26-48 | after `insert` the trie holds the old words plus the new one, and grows by one word exactly when it was new |
| TrieNodes.InsertedFrame | telegram-bot/algorithms/search/trie.js:26-48 | after `insert` the word's node holds the data, new nodes lie on the word's path, and every other node is kept, grown at most |
| TrieNodes.PrefixClosed | telegram-bot/algorithms/search/trie.js:34-38 | every prefix of a node's path is a node |
| TrieNodes.LowerPrefix | telegram-bot/algorithms/search/trie.js:32 | lower-casing character by character builds the lower-cased word one prefix at a time |
| TrieNodes.StoredPrefixes | telegram-bot/algorithms/search/trie.js:67-69 | every prefix of a stored word is a node, so `startsWith` holds for it |
| Tries.Trie.constructor | telegram-bot/algorithms/search/trie.js:15-18 | only the root node, and no word |
| Tries.Trie.Insert | telegram-bot/algorithms/search/trie.js:26-48 | an empty word changes nothing; otherwise the lower-cased word is stored with `data \|\| word`: the data when it is present and truthy, the word as typed otherwise; `size` grows exactly for a new word, new nodes lie on its path and old nodes are kept |
| Tries.Trie.WithWord | telegram-bot/algorithms/search/trie.js:29-47 | the nodes and size `insert` leaves, computed from the current ones, storing `data \|\| word`, with the same guarantees as `insert` |
| Tries.Trie.Walk | telegram-bot/algorithms/search/trie.js:31-39 | the loop follows or makes the children along the lower-cased word |
| Tries.Trie.FindNode | telegram-bot/algorithms/search/trie.js:76-92 | the node at the lower-cased word if there is one, else `null`; the root for an empty word |
| Tries.Trie.Search | telegram-bot/algorithms/search/trie.js:56-59 | true exactly when the lower-cased word is stored |
| Tries.Trie.StartsWith | telegram-bot/algorithms/search/trie.js:67-69 | true exactly when a node lies at the lower-cased prefix |
| Tries.Trie.GetWordsWithPrefix | telegram-bot/algorithms/search/trie.js:101-108 | `[]` when no node lies at the prefix, otherwise the first `maxResults` entries of the uncapped depth-first walk below it; `maxResults` defaults to 10 |
| Tries.Trie.GetAllWords | telegram-bot/algorithms/search/trie.js:173-177 | a word is listed exactly when it is stored |
| Tries.Trie.FuzzyVisit | telegram-bot/algorithms/search/trie.js:220-240 | pushes, after what was there, only stored words below the node within `maxDistance` (sound) and every such word (complete) |
| Tries.Trie.FuzzySearch | telegram-bot/algorithms/search/trie.js:214-218 | every result is a stored word within `maxDistance` of the query with its data and distance; every stored word within `maxDistance` is a result; with `maxDistance <= 0` only prefixes of the query come back; `maxDistance` defaults to 2 |
| Tries.Trie.Delete | telegram-bot/algorithms/search/trie.js:135-137 | the lower-cased word is no longer stored, other words stay, `size` drops exactly when it was stored, no node is added, nodes off its path are untouched; returns true only when it removed the last word |
| Tries.Trie.Remove | telegram-bot/algorithms/search/trie.js:135-166 | the corrected `delete`: same new state, and returns true exactly when the word was stored |
| Tries.DeleteReportsFailure | telegram-bot/algorithms/search/trie.js:158-165 | with two different words stored, deleting one removes it yet reports false |
| TrieCollect.Enumeration | telegram-bot/algorithms/search/trie.js:124 | `Object.entries` visits each child key exactly once |
| TrieCollect.CollectSound | telegram-bot/algorithms/search/trie.js:113-127 | every entry `_collectWords` pushes is a word stored below the node, with its data |
| TrieCollect.CollectComplete | telegram-bot/algorithms/search/trie.js:113-127 | without a cap `_collectWords` pushes every word stored below the node |
| TrieCollect.CollectTruncates | telegram-bot/algorithms/search/trie.js:114 | the capped walk yields the first `k` entries of the uncapped one |
| TrieCollect.PrefixResults | telegram-bot/algorithms/search/trie.js:101-108 | at most `maxResults` entries, each a word stored below the prefix, and every such word when the cap is not reached |
| TrieCollect.AllWordsExact | telegram-bot/algorithms/search/trie.js:173-177 | the uncapped walk from the root yields exactly the stored words |
| TrieDelete.Without | telegram-bot/algorithms/search/trie.js:159 | `delete node.children[c]` leaves exactly the other keys |
| TrieDelete.WithoutNoRepeats | telegram-bot/algorithms/search/trie.js:159 | removing a key lists no key twice if none was |
| TrieDelete.UnmarkKeeps | telegram-bot/algorithms/search/trie.js:143-145 | unmarking keeps the trie's shape and drops exactly that word |
| TrieDelete.RemoveChildKeeps | telegram-bot/algorithms/search/trie.js:158-159 | cutting off a childless, unmarked child keeps the shape and the words |
| TrieDelete.NoWordsBareRoot | telegram-bot/algorithms/search/trie.js:162 | in a trie with no dead branch no word is stored exactly when the root has no child |
| TrieDelete.NotOnPath | telegram-bot/algorithms/search/trie.js:154 | a missing child on the way down means the word is not stored |
| TrieDelete.DeleteFrom | telegram-bot/algorithms/search/trie.js:139-166 | removes exactly the word when stored and changes nothing otherwise; reports the node cuttable exactly when the word was removed and the node is left bare; adds no node and leaves nodes off the path alone |
| TrieFuzzy.Step | telegram-bot/algorithms/search/trie.js:233-237 | the step is 0 exactly when the character is the query's, lower-cased, at that position, and at most 1 |
| TrieFuzzy.MismatchGrows | telegram-bot/algorithms/search/trie.js:221 | the distance never shrinks along a path, so a branch past the bound holds nothing within it |
| TrieFuzzy.MismatchAtMost | telegram-bot/algorithms/search/trie.js:233-237 | a path is never further from the query than its own length |
| TrieFuzzy.MismatchZero | telegram-bot/algorithms/search/trie.js:233-234 | a path is at distance 0 exactly when it is a prefix of the lower-cased query |
| TrieFuzzy.MatchFor | telegram-bot/algorithms/search/trie.js:224-228 | the pushed result carries the word and its distance from the query |
| TrieCollect.Collect | telegram-bot/algorithms/search/trie.js:113-127 | `_collectWords` only appends to the results, and stops growing them at the cap |
| TrieCollect.Trunc | telegram-bot/algorithms/search/trie.js:114 | a prefix of `k` entries, or all of them when fewer |
| Tries.Trie.Missing | telegram-bot/algorithms/search/trie.js:84-86 | a missing child on the walk means the word has no node |
| Bookings.Worth | telegram-bot/algorithms/greedy/bookingOptimizer.js:167-168 | `value \|\| priority \|\| 1` is never 0: the value when set, else the priority when set, else 1 |
| Bookings.BookingComparators | telegram-bot/algorithms/greedy/bookingOptimizer.js:22-25 | the four comparators the optimiser sorts with (end then start, end, start, worth descending) are valid comparators |
| Bookings.SortedEnds | telegram-bot/algorithms/greedy/bookingOptimizer.js:22-25 | sorted by end then start, or by end, means end times in order; sorted by start means exactly start times in order |
| Bookings.GreedyFrom | telegram-bot/algorithms/greedy/bookingOptimizer.js:30-38 | the scan keeps no more bookings than it looks at |
| Bookings.OptimalSchedule | telegram-bot/algorithms/greedy/bookingOptimizer.js:18-41 | the schedule is empty exactly when there are no bookings |
| Bookings.GreedyCompatible | telegram-bot/algorithms/greedy/bookingOptimizer.js:34-37 | the kept bookings do not overlap, and the first starts at or after the last end so far |
| Bookings.GreedyDrawn | telegram-bot/algorithms/greedy/bookingOptimizer.js:30-38 | the scan keeps only bookings it looked at, each at most as often as it occurs |
| Bookings.GreedySorted | telegram-bot/algorithms/greedy/bookingOptimizer.js:30-38 | on sorted bookings the kept ones stay in that order |
| Bookings.GreedyAhead | telegram-bot/algorithms/greedy/bookingOptimizer.js:30-38 | greedy stays ahead: on bookings in end order no non-overlapping chain of the rest is longer than what the scan keeps |
| Bookings.GreedyLongest | telegram-bot/algorithms/greedy/bookingOptimizer.js:27-38 | on bookings in end order no chain is longer than the first booking plus the scan |
| Bookings.OptimalScheduleShape | telegram-bot/algorithms/greedy/bookingOptimizer.js:18-41 | the schedule does not overlap, is in end-then-start order, and takes each booking at most as often as the input has it |
| Bookings.OptimalScheduleLongest | telegram-bot/algorithms/greedy/bookingOptimizer.js:18-41 | no set of non-overlapping bookings is larger than the schedule: it is a maximum activity selection |
| Bookings.SelectOptimal | telegram-bot/algorithms/greedy/bookingOptimizer.js:18-41 | the loop returns the greedy schedule, so it has all the properties above |
| Bookings.LastCompatibleUpTo | telegram-bot/algorithms/greedy/bookingOptimizer.js:98-116 | the last position up to `j` whose booking ends by the start of booking `i`, or -1 when none does |
| Bookings.LastCompatible | telegram-bot/algorithms/greedy/bookingOptimizer.js:98-116 | a position before `i`, or -1 |
| Bookings.FindLastCompatible | telegram-bot/algorithms/greedy/bookingOptimizer.js:98-116 | on bookings in end order the binary search finds the last earlier booking ending by the start of booking `i`, or -1 |
| Bookings.LastCompatibleUnique | telegram-bot/algorithms/greedy/bookingOptimizer.js:98-116 | a position that ends by the start of booking `i` with every later one before `i` ending after it is the one found |
| Bookings.WeightedBestGrows | telegram-bot/algorithms/greedy/bookingOptimizer.js:67 | the `dp` table never decreases along the sorted bookings |
| Bookings.Parent | telegram-bot/algorithms/greedy/bookingOptimizer.js:68-76 | `parent[i]` is earlier than `i`, and when it is not `i - 1` it is the last compatible booking |
| Bookings.WeightedStep | telegram-bot/algorithms/greedy/bookingOptimizer.js:63-78 | one pass of the loop stores the table entries the recurrence defines |
| Bookings.SortedByEnd | telegram-bot/algorithms/greedy/bookingOptimizer.js:54 | sorting a copy by end puts end times in order |
| Bookings.WalkStep | telegram-bot/algorithms/greedy/bookingOptimizer.js:84-89 | one step of the walk back keeps the listed bookings non-overlapping, the newly listed one ending by the start of the next |
| Bookings.WeightedTable | telegram-bot/algorithms/greedy/bookingOptimizer.js:58-78 | fills `dp` and `parent` with the recurrence for every booking |
| Bookings.FillEntry | telegram-bot/algorithms/greedy/bookingOptimizer.js:63-78 | fills entry `i` of both tables from the ones before it |
| Bookings.Parents | telegram-bot/algorithms/greedy/bookingOptimizer.js:59-78 | the whole `parent` table: one entry per booking, each the one the filling loop leaves |
| Bookings.Walk | telegram-bot/algorithms/greedy/bookingOptimizer.js:81-91 | the bookings the reconstruction lists when it starts from position `i`, all drawn from the sorted bookings |
| Bookings.WalkBack | telegram-bot/algorithms/greedy/bookingOptimizer.js:84-89 | one step of the reconstruction: the walk from `i` is the walk from `parent[i]`, then `sorted[i]` when `parent[i]` is not `i - 1`, then what is listed already |
| Bookings.WalkBackLoop | telegram-bot/algorithms/greedy/bookingOptimizer.js:81-91 | the loop lists exactly the walk back from the last booking, and the listed bookings do not overlap |
| Bookings.SelectWeighted | telegram-bot/algorithms/greedy/bookingOptimizer.js:50-92 | `[]` for no bookings; otherwise exactly the walk back along `parent` from the last booking in end order, non-overlapping and drawn from the input |
| Bookings.WalkSkipsFirst | telegram-bot/algorithms/greedy/bookingOptimizer.js:59-61 | as written, a single booking is never listed: its parent is -1, that is `0 - 1`, although `dp[0]` is `value \|\| 1` |
| Bookings.WalkDropsAdjacent | telegram-bot/algorithms/greedy/bookingOptimizer.js:71-88 | as written, two back-to-back bookings worth 5 each give `dp[1] == 10` and `parent[1] == 0`, and nothing is listed |
| Bookings.WalkTaken | telegram-bot/algorithms/greedy/bookingOptimizer.js:81-89 | the walk back with a taken flag per entry lists positions between 0 and `i` |
| Bookings.WeightedBestTaken | telegram-bot/algorithms/greedy/bookingOptimizer.js:61-78 | `dp[i]` is the booking's credit plus the entry at its last compatible booking when the booking is taken, and `dp[i - 1]` otherwise |
| Bookings.WalkTakenWorth | telegram-bot/algorithms/greedy/bookingOptimizer.js:61-89 | the bookings the corrected walk lists add up to `dp[i]`, the first booking counting `value \|\| 1` |
| Bookings.WalkTakenChained | telegram-bot/algorithms/greedy/bookingOptimizer.js:81-89 | on bookings in end order, the corrected walk lists increasing positions, each booking ending by the start of the next |
| Bookings.WalkTakenCompatible | telegram-bot/algorithms/greedy/bookingOptimizer.js:81-89 | on bookings in end order, the bookings the corrected walk lists do not overlap |
| Bookings.AddTo | telegram-bot/algorithms/greedy/bookingOptimizer.js:137-151 | placing a booking keeps every group non-empty and adds one group at most |
| Bookings.Groups | telegram-bot/algorithms/greedy/bookingOptimizer.js:132-152 | the outer loop makes only non-empty groups |
| Bookings.Crowded | telegram-bot/algorithms/greedy/bookingOptimizer.js:155 | a group is kept exactly when it has more than one booking |
| Bookings.AddToShape | telegram-bot/algorithms/greedy/bookingOptimizer.js:137-151 | placing a booking that starts no earlier than any placed keeps each group in start order and overlapping, and adds exactly that booking |
| Bookings.PlaceStep | telegram-bot/algorithms/greedy/bookingOptimizer.js:132-152 | placing one more booking keeps the shape and the members the bookings so far |
| Bookings.GroupsShape | telegram-bot/algorithms/greedy/bookingOptimizer.js:132-152 | after the outer loop the groups hold exactly the bookings, each group in start order and overlapping |
| Bookings.CrowdedMembers | telegram-bot/algorithms/greedy/bookingOptimizer.js:155 | filtering adds no booking |
| Bookings.CrowdedShaped | telegram-bot/algorithms/greedy/bookingOptimizer.js:155 | filtering keeps the groups' shape |
| Bookings.ConflictsShape | telegram-bot/algorithms/greedy/bookingOptimizer.js:124-156 | every conflict group has two or more bookings, in start order, each overlapping the one placed before it, and no booking appears more often than in the input |
| Bookings.SortedByStart | telegram-bot/algorithms/greedy/bookingOptimizer.js:128 | sorting a copy by start puts start times in order |
| Bookings.AddToAt | telegram-bot/algorithms/greedy/bookingOptimizer.js:137-145 | the inner loop at group `j` either appends to it and stops, or moves on |
| Bookings.Place | telegram-bot/algorithms/greedy/bookingOptimizer.js:134-151 | the inner loop places the booking where the group rule says |
| Bookings.DetectConflicts | telegram-bot/algorithms/greedy/bookingOptimizer.js:124-156 | the loops return the conflict groups, so they have the shape stated above |
| Bookings.Resolve | telegram-bot/algorithms/greedy/bookingOptimizer.js:164-177 | one kept entry: `undefined` for an empty group; otherwise a booking of the group worth at least every other, and kept plus removed are exactly the group |
| Bookings.ResolveBest | telegram-bot/algorithms/greedy/bookingOptimizer.js:166-172 | the first booking of the sort by worth, descending, is worth at least as much as any booking in the group |
| Bookings.AsBooking | telegram-bot/algorithms/greedy/bookingOptimizer.js:188-193 | a request becomes a booking with its start, end and price as value, and no priority |
| Bookings.RequestsFor | telegram-bot/algorithms/greedy/bookingOptimizer.js:186-193 | a booking is listed exactly when it comes from a request for that equipment |
| Bookings.UtilizationBound | telegram-bot/algorithms/greedy/bookingOptimizer.js:204 | for non-overlapping bookings that do not run backwards the booked time is between 0 and the span from the first start to the last end |
| Bookings.OptimizeRentalSchedule | telegram-bot/algorithms/greedy/bookingOptimizer.js:184-207 | the schedule and conflicts of that equipment's requests, with the schedule's booked time and revenue |
| Bookings.RentalScheduleShape | telegram-bot/algorithms/greedy/bookingOptimizer.js:184-207 | the schedule lists only that equipment's requests, without overlap, and its booked time fits within its span |
| Knapsack.PickSnoc | telegram-bot/algorithms/dynamic/knapsack.js:48-58 | deciding one more item appends it to the picked items exactly when it is taken |
| Knapsack.WeightSnoc | telegram-bot/algorithms/dynamic/knapsack.js:52 | deciding one more item adds its weight exactly when it is taken |
| Knapsack.ValueSnoc | telegram-bot/algorithms/dynamic/knapsack.js:38 | deciding one more item adds its value exactly when it is taken |
| Knapsack.TotalWeightPick | telegram-bot/algorithms/dynamic/knapsack.js:59 | the `reduce` over the selected items sums exactly the selection's weight |
| Knapsack.WeightNonNegative | telegram-bot/algorithms/dynamic/knapsack.js:35 | with non-negative weights no selection weighs less than 0 |
| Knapsack.BestBound | telegram-bot/algorithms/dynamic/knapsack.js:21-42 | no selection of the first items that fits in `w` is worth more than `dp[i][w]`: the table is an upper bound |
| Knapsack.Trace | telegram-bot/algorithms/dynamic/knapsack.js:44-54 | the corrected walk back decides exactly one flag per item |
| Knapsack.TraceSnoc | telegram-bot/algorithms/dynamic/knapsack.js:49-53 | one step of the corrected walk takes item `i - 1` exactly when the entry changed, and then moves to the reduced capacity |
| Knapsack.TakenFits | telegram-bot/algorithms/dynamic/knapsack.js:35 | an item that changed an entry fits in that capacity |
| Knapsack.BestStep | telegram-bot/algorithms/dynamic/knapsack.js:32-39 | an entry that changed equals the entry above at the reduced capacity plus the item's value; one that did not equals the entry above |
| Knapsack.TraceFitsStep | telegram-bot/algorithms/dynamic/knapsack.js:49-53 | one step of the corrected walk keeps it within the capacity |
| Knapsack.TraceFits | telegram-bot/algorithms/dynamic/knapsack.js:44-54 | the corrected walk's items fit the capacity |
| Knapsack.TraceOptimalStep | telegram-bot/algorithms/dynamic/knapsack.js:49-53 | one step of the corrected walk keeps its value equal to the table entry |
| Knapsack.TraceOptimal | telegram-bot/algorithms/dynamic/knapsack.js:44-54 | the corrected walk is worth exactly `dp[i][w]`: with `BestBound`, it is an optimal selection |
| Knapsack.TraceAsWritten | telegram-bot/algorithms/dynamic/knapsack.js:48-54 | the walk as written decides exactly one flag per item |
| Knapsack.TraceAsWrittenSnoc | telegram-bot/algorithms/dynamic/knapsack.js:48-53 | one step of the written walk takes an item only while capacity remains and the entry changed |
| Knapsack.TraceAsWrittenFits | telegram-bot/algorithms/dynamic/knapsack.js:48-54 | the written walk's items also fit the capacity |
| Knapsack.BestAtZero | telegram-bot/algorithms/dynamic/knapsack.js:35 | with every weight at least 1 the table is 0 at capacity 0 |
| Knapsack.TraceAsWrittenIsTrace | telegram-bot/algorithms/dynamic/knapsack.js:48 | with every weight at least 1 the `w > 0` guard changes nothing: the written walk is the corrected one |
| Knapsack.TraceAsWrittenOptimal | telegram-bot/algorithms/dynamic/knapsack.js:44-58 | with every weight at least 1 the written walk's items are worth `dp[n][capacity]` |
| Knapsack.TraceAsWrittenDropsFreeItems | telegram-bot/algorithms/dynamic/knapsack.js:48 | a weight-0 item worth 300 and a weight-5 item worth 300 with capacity 5: `maxValue` is 600 but the listed items are worth 300 |
| Knapsack.PickExhausted | telegram-bot/algorithms/dynamic/knapsack.js:48 | once the capacity is used up the written walk lists nothing more |
| Knapsack.TraceStep | telegram-bot/algorithms/dynamic/knapsack.js:48-53 | one step of the loop moves item `i - 1` from the walk still to come to the list exactly when the entry changed |
| Knapsack.FillTable | telegram-bot/algorithms/dynamic/knapsack.js:22-42 | every entry of the filled table is the best value of the first `r` items within capacity `c` |
| Knapsack.WalkBack | telegram-bot/algorithms/dynamic/knapsack.js:44-58 | the loop lists the written walk's items in input order |
| Knapsack.Solve | telegram-bot/algorithms/dynamic/knapsack.js:18-61 | `maxValue` is the table's best value, the items are the written walk's and `totalWeight` is their weight, within the capacity |
| Knapsack.KeepStep | telegram-bot/algorithms/dynamic/knapsack.js:81-85 | where the item fits, the test `dp[w] < dp[w - wt] + v` gives the new entry and flags exactly the entries the item changed |
| Knapsack.SkipStep | telegram-bot/algorithms/dynamic/knapsack.js:81 | where the item does not fit, the entry stays and is not flagged |
| Knapsack.KeepRow | telegram-bot/algorithms/dynamic/knapsack.js:77-87 | one pass of the outer loop turns row `i` of the 1-D table into row `i + 1` and flags that row exactly where the entry changed |
| Knapsack.FillKept | telegram-bot/algorithms/dynamic/knapsack.js:70-87 | the 1-D table ends as the last row of `solve`'s table and the flags mark exactly the changed entries |
| Knapsack.WalkBackKept | telegram-bot/algorithms/dynamic/knapsack.js:89-99 | reading the flags lists the same items as `solve`'s written walk |
| Knapsack.SolveOptimized | telegram-bot/algorithms/dynamic/knapsack.js:70-106 | returns the same value, items and total weight as `solve` |
| Knapsack.DefaultValue | telegram-bot/algorithms/dynamic/knapsack.js:159-163 | `(rating \|\| 3) * 100` for available equipment and half of that otherwise |
| Knapsack.DefaultWeight | telegram-bot/algorithms/dynamic/knapsack.js:168 | the daily price (0 when unset) rounded up, and not negative for a non-negative price |
| Knapsack.EquipmentItems | telegram-bot/algorithms/dynamic/knapsack.js:171-175 | one item per piece of equipment, in order, carrying it with its value and weight |
| Knapsack.OptimizeEquipment | telegram-bot/algorithms/dynamic/knapsack.js:156-178 | the 0/1 knapsack's best value within the rounded-down budget, the written walk's items and their total weight, within that budget |
| Knapsack.UnboundedCellGrows | telegram-bot/algorithms/dynamic/knapsack.js:188-195 | trying more items at a capacity never lowers its entry |
| Knapsack.UnboundedDominates | telegram-bot/algorithms/dynamic/knapsack.js:184-196 | with items reusable each entry is at least the 0/1 table's entry |
| Knapsack.Unbounded | telegram-bot/algorithms/dynamic/knapsack.js:184-203 | `maxValue` is the table's last entry, at least the 0/1 knapsack's value, and no items are listed |
| PriceOptimizing.AsItems | telegram-bot/algorithms/dynamic/priceOptimizer.js:24-27 | each option as a knapsack item, in order, with its value as value and its duration as weight |
| PriceOptimizing.Options | telegram-bot/algorithms/dynamic/priceOptimizer.js:31-34 | the options behind the picked items, one per item and in order |
| PriceOptimizing.OptionsSnoc | telegram-bot/algorithms/dynamic/priceOptimizer.js:31-34 | appending an item appends its option |
| PriceOptimizing.PickedSums | telegram-bot/algorithms/dynamic/priceOptimizer.js:27 | the options a selection picks add up to the selection's value and duration |
| PriceOptimizing.KeptStep | telegram-bot/algorithms/dynamic/priceOptimizer.js:29-35 | the kept list of an entry grows by the option exactly when the option changed that entry |
| PriceOptimizing.DayStep | telegram-bot/algorithms/dynamic/priceOptimizer.js:26-35 | the test `valueWithOption > dp[days]` gives the next row's best value and kept options |
| PriceOptimizing.ShortStep | telegram-bot/algorithms/dynamic/priceOptimizer.js:26 | days shorter than the option keep their entry and kept options |
| PriceOptimizing.OptionRow | telegram-bot/algorithms/dynamic/priceOptimizer.js:23-37 | one pass of the outer loop turns both arrays from row `i` into row `i + 1` |
| PriceOptimizing.SettleDay | telegram-bot/algorithms/dynamic/priceOptimizer.js:27-35 | one pass of the `days` loop moves that day's entry and kept list to the next row and changes no other day |
| PriceOptimizing.FirstMaxIndex | telegram-bot/algorithms/dynamic/priceOptimizer.js:39 | `dp.indexOf(Math.max(...dp))` is the first position of a largest entry |
| PriceOptimizing.BestBoundsAll | telegram-bot/algorithms/dynamic/priceOptimizer.js:18-37 | no selection of options lasting at most `maxDays` is worth more than `dp[maxDays]` |
| PriceOptimizing.OptimizeCombination | telegram-bot/algorithms/dynamic/priceOptimizer.js:18-47 | `totalDays` is the first day count with a largest entry, `maxValue` its entry, which no combination within `maxDays` beats; the options kept for it are worth `maxValue`, last at most `totalDays`, and `totalPrice` is their price; with no options everything is empty or 0 |
| ShortestPaths.Route | telegram-bot/algorithms/graph/dijkstra.js:82-85 | the nodes a walk passes, one more than its edges, from the start to its end |
| ShortestPaths.WeightNonNegative | telegram-bot/algorithms/graph/dijkstra.js:59 | with no negative edge weight no walk weighs less than 0 |
| ShortestPaths.WalkSnoc | telegram-bot/algorithms/graph/dijkstra.js:56-63 | following one more edge extends the walk, adds that edge's weight and appends its node to the route |
| ShortestPaths.Back | telegram-bot/algorithms/graph/dijkstra.js:82-85 | the chain collected by following `previous` back to a `null` is linked by `previous` and ends at the node |
| ShortestPaths.BackMore | telegram-bot/algorithms/graph/dijkstra.js:82-85 | once the chain is complete, more steps change nothing |
| ShortestPaths.BackFinds | telegram-bot/algorithms/graph/dijkstra.js:82-85 | a chain linked by `previous` is the one the walk back collects |
| ShortestPaths.BackUnique | telegram-bot/algorithms/graph/dijkstra.js:82-85 | only one chain linked by `previous` ends at a given node |
| ShortestPaths.ReconstructPath | telegram-bot/algorithms/graph/dijkstra.js:78-88 | `[]`, or a chain linked by `previous` from `startNode` to `endNode`; `[]` exactly when the chain back from `endNode` does not begin at `startNode` |
| ShortestPaths.PopLeast | telegram-bot/algorithms/graph/dijkstra.js:41-42 | the entry taken after the sort is in the queue and has the least distance there |
| ShortestPaths.PopRest | telegram-bot/algorithms/graph/dijkstra.js:41-42 | the entries left after `shift` are exactly the rest of the queue |
| ShortestPaths.Initialize | telegram-bot/algorithms/graph/dijkstra.js:23-34 | every node of the graph at `Infinity` with a `null` link and unvisited, and `startNode` at 0 |
| ShortestPaths.Frontier | telegram-bot/algorithms/graph/dijkstra.js:39-47 | with no negative weight, a walk to an unvisited node passes an unvisited node whose distance is at most the walk's weight |
| ShortestPaths.VisitDistance | telegram-bot/algorithms/graph/dijkstra.js:41-46 | the node taken from the queue, when not yet visited, carries its current distance, and that distance is final |
| ShortestPaths.VisitState | telegram-bot/algorithms/graph/dijkstra.js:41-47 | visiting the least entry's node keeps the search invariant |
| ShortestPaths.SkipState | telegram-bot/algorithms/graph/dijkstra.js:44 | dropping a stale entry of a visited node keeps the search invariant |
| ShortestPaths.LoweredStep | telegram-bot/algorithms/graph/dijkstra.js:59-63 | lowering one neighbour's distance records the new distance, the link back and the queue entry |
| ShortestPaths.Neighbors | telegram-bot/algorithms/graph/dijkstra.js:55 | the node's adjacency list, or `[]` when the graph has none for it |
| ShortestPaths.RelaxKeeps | telegram-bot/algorithms/graph/dijkstra.js:54-65 | relaxing the edges of the node just visited keeps the search invariant and leaves every edge of a visited node relaxed |
| ShortestPaths.Relax | telegram-bot/algorithms/graph/dijkstra.js:55-65 | lowers exactly the unvisited neighbours reached more cheaply through the current node, linking them back to it and queueing them; nothing is queued for a node without a list |
| ShortestPaths.BackRank | telegram-bot/algorithms/graph/dijkstra.js:62 | from a visited node the chain of links reaches `startNode` |
| ShortestPaths.Exhausted | telegram-bot/algorithms/graph/dijkstra.js:39 | when the queue or the unvisited set runs out, every distance is the least walk weight, given no negative weight |
| ShortestPaths.Concluded | telegram-bot/algorithms/graph/dijkstra.js:39-68 | whether the loop runs out or stops at `endNode`, the tables have their keys, `startNode` is at 0, every link is a real edge matching the distances, and the sought distances are shortest |
| ShortestPaths.FindShortestPath | telegram-bot/algorithms/graph/dijkstra.js:22-69 | every node of the graph plus `startNode` has a distance, `startNode` 0; each link is an edge whose weight makes up the distance; links lead back to `startNode`; with no negative weight every distance (with an `endNode`, that node's) is the least weight of any walk, `Infinity` when none |
| ShortestPaths.BackWalk | telegram-bot/algorithms/graph/dijkstra.js:78-85 | the chain back from a node to `startNode` is the route of a walk whose weight is that node's distance |
| ShortestPaths.ChainWalk | telegram-bot/algorithms/graph/dijkstra.js:78-88 | a non-empty path `reconstructPath` returns is a walk from `startNode` of exactly its end's distance |
| ShortestPaths.Unreachable | telegram-bot/algorithms/graph/dijkstra.js:30 | a node no walk reaches keeps `Infinity` |
| ShortestPaths.Reached | telegram-bot/algorithms/graph/dijkstra.js:59-62 | a node with a finite distance is reached by a walk of exactly that weight |
| ShortestPaths.Reach | telegram-bot/algorithms/graph/dijkstra.js:103 | `distances[loc.id] \|\| Infinity` is finite exactly when the id has a finite distance other than 0, and then it is that distance |
| ShortestPaths.Candidates | telegram-bot/algorithms/graph/dijkstra.js:100-105 | every entry is a location with its finite distance, and every location with a finite distance is an entry |
| ShortestPaths.Slice | telegram-bot/algorithms/graph/dijkstra.js:107 | `slice(0, end)` is a prefix of `end` entries, or of all but `-end` entries for a negative `end` |
| ShortestPaths.CandidatesInOrder | telegram-bot/algorithms/graph/dijkstra.js:100-105 | `map` and `filter` keep the locations' order |
| ShortestPaths.NearestMeaning | telegram-bot/algorithms/graph/dijkstra.js:100-107 | `maxResults` entries (fewer if fewer are reached), each a reached location at its distance, in ascending distance, the front of the stable sort of the candidates |
| ShortestPaths.NearestClosest | telegram-bot/algorithms/graph/dijkstra.js:106-107 | no reached location left out is nearer than one kept |
| ShortestPaths.FindNearestEquipment | telegram-bot/algorithms/graph/dijkstra.js:97-110 | the distances from the user's node are shortest; the results are the nearest reached locations, `maxResults` of them, ascending, each with the weight of a walk to it that no walk beats, and none left out is nearer; `maxResults` defaults to 5 |
| GraphBuilding.LastSite | telegram-bot/algorithms/graph/graphBuilder.js:66-74 | the last row with that id and both coordinates set, or none when no such row exists |
| GraphBuilding.RegisteredMeaning | telegram-bot/algorithms/graph/graphBuilder.js:66-74 | after the rows are registered an id has a location exactly when it had one or some located row has it; the last such row wins, other locations stay |
| GraphBuilding.OutgoingMeaning | telegram-bot/algorithms/graph/graphBuilder.js:57 | a node's appended list holds `[w, x]` exactly when an arc from it to `w` at weight `x` was added |
| GraphBuilding.AppendShape | telegram-bot/algorithms/graph/graphBuilder.js:80-98 | symmetric, loop-free, within-threshold arc lists stay so when put together |
| GraphBuilding.RowsShape | telegram-bot/algorithms/graph/graphBuilder.js:80-98 | the arcs the first rounds add are symmetric, never loops and never longer than 50 |
| GraphBuilding.RowsHave | telegram-bot/algorithms/graph/graphBuilder.js:93-95 | a pair within 50 gets its arc once the outer loop has passed its first node |
| GraphBuilding.ConnectionsMeaning | telegram-bot/algorithms/graph/graphBuilder.js:77-98 | every two distinct nodes within 50 of each other are joined both ways at their distance, and only such arcs are added |
| GraphBuilding.OutgoingSymmetric | telegram-bot/algorithms/graph/graphBuilder.js:94-95 | with the arcs added in pairs, `u` lists `v` at `w` exactly when `v` lists `u` at `w` |
| GraphBuilding.BuiltGraph | telegram-bot/algorithms/graph/graphBuilder.js:64-101 | in the returned graph, among nodes that had no edges before: edges come in twins, never point back at their node and never exceed 50; every pair within 50 is joined both ways |
| GraphBuilding.AppendArc | telegram-bot/algorithms/graph/graphBuilder.js:57 | pushing one entry extends its node's list by exactly that arc |
| GraphBuilding.RowStep | telegram-bot/algorithms/graph/graphBuilder.js:81-96 | one more pair of the inner loop appends both its arcs when within 50, and nothing otherwise |
| GraphBuilding.RowStart | telegram-bot/algorithms/graph/graphBuilder.js:81 | the inner loop starts with no arcs of its own |
| GraphBuilding.GraphBuilder.constructor | telegram-bot/algorithms/graph/graphBuilder.js:9-12 | an empty graph and no locations |
| GraphBuilding.GraphBuilder.AddNode | telegram-bot/algorithms/graph/graphBuilder.js:18-29 | records or replaces the location (a new id goes last in the key order) and gives the node an empty list only when it had none |
| GraphBuilding.GraphBuilder.AddEdge | telegram-bot/algorithms/graph/graphBuilder.js:35-58 | appends one `[toNode, weight]` to `fromNode`'s list, made if missing; an omitted weight is the distance between the two locations, or 1 when either is unknown |
| GraphBuilding.GraphBuilder.AddLocated | telegram-bot/algorithms/graph/graphBuilder.js:66-74 | registers every located row, keeps the earlier key order in front, gives new nodes empty lists and leaves existing lists alone |
| GraphBuilding.GraphBuilder.ConnectFrom | telegram-bot/algorithms/graph/graphBuilder.js:81-97 | one round of the outer loop appends exactly that round's arcs |
| GraphBuilding.GraphBuilder.Connect | telegram-bot/algorithms/graph/graphBuilder.js:93-96 | appends the two arcs of one close pair |
| GraphBuilding.GraphBuilder.ConnectNearby | telegram-bot/algorithms/graph/graphBuilder.js:77-98 | appends to each list exactly its arcs to nodes within 50, pairs taken in key order |
| GraphBuilding.GraphBuilder.BuildFromEquipment | telegram-bot/algorithms/graph/graphBuilder.js:64-101 | returns its graph: the located rows become nodes, existing lists keep their entries in front, followed by the arcs to nodes within 50 |
| Locating.Lookup | telegram-bot/handlers/locationHandler.js:41-42 | the position of the city entry under that key, the first such; none exactly when no entry has that key |
| Locating.FirstRelated | telegram-bot/handlers/locationHandler.js:46-50 | the first entry whose key contains the query or is contained in it; none exactly when no key is |
| Locating.GeocodeExact | telegram-bot/handlers/locationHandler.js:37-43 | a city whose key is the lower-cased, trimmed query is the answer |
| Locating.GeocodeRelated | telegram-bot/handlers/locationHandler.js:45-50 | with no exact key, the answer is the first city whose key contains or is contained in the query |
| Locating.GeocodeNone | telegram-bot/handlers/locationHandler.js:37-53 | `null` exactly when no key contains or is contained in the query |
| Locating.GeocodeBlank | telegram-bot/handlers/locationHandler.js:46-48 | a blank query is contained in every key, so on its own it would name Delhi, the first city |
| Locating.BlankLowered | telegram-bot/handlers/locationHandler.js:38 | lower-casing keeps a blank query blank |
| Locating.NamedKeys | telegram-bot/handlers/locationHandler.js:18-29 | no key of the city table is empty |
| Locating.Measured | telegram-bot/handlers/locationHandler.js:101-130 | only items whose coordinates parse and lie on the map, each at most once per row and tagged with its distance from the origin; every such item is there |
| Locating.MeasuredInOrder | telegram-bot/handlers/locationHandler.js:101-130 | `filter` and `map` keep catalogue order |
| Locating.NearestFiveMeaning | telegram-bot/handlers/locationHandler.js:131-132 | five items, or every item on the map when fewer, each measured from the origin, nearest first, the front of the stable sort by distance |
| Locating.NearestFiveClosest | telegram-bot/handlers/locationHandler.js:131-132 | no item on the map that was left out is nearer than one kept |
| Locating.NearestEmpty | telegram-bot/handlers/locationHandler.js:134 | nothing is found exactly when no item is on the map |
| Locating.HandleAsk | telegram-bot/handlers/locationHandler.js:59-65 | the user is asked for a location exactly when the query is missing or blank |
| Locating.HandleUnrecognized | telegram-bot/handlers/locationHandler.js:71-97 | "not recognized" exactly when the query is not blank, the catalogue is not empty and no city matches |
| Locating.HandleFound | telegram-bot/handlers/locationHandler.js:99-160 | a found answer comes from a non-blank query naming a city, and lists one to five items on the map, nearest first, measured from that city |
| Locating.HandleNoneNearby | telegram-bot/handlers/locationHandler.js:134-140 | "no nearby equipment" only when no item of the catalogue is on the map |
| Locating.HandleLocationMeaning | telegram-bot/handlers/locationHandler.js:186-255 | for a shared point: "no equipment" exactly for an empty catalogue, "none nearby" exactly when no item is on the map, otherwise one to five items, nearest first, measured from that point |
| SearchHandling.KeyedBy | telegram-bot/handlers/searchHandler.js:37-46 | one insertion of the item per key, in key order |
| SearchHandling.KeySetIff | telegram-bot/handlers/searchHandler.js:36-49 | a key is indexed exactly when some insertion was under it |
| SearchHandling.LastForSome | telegram-bot/handlers/searchHandler.js:36-49 | a key leads to an item exactly when something was inserted under it |
| SearchHandling.LastForLast | telegram-bot/handlers/searchHandler.js:36-49 | the item a key leads to is that of the last insertion under the key |
| SearchHandling.SplitPiecesFrom | telegram-bot/handlers/searchHandler.js:41 | every character of a piece of `split(' ')` comes from the description |
| SearchHandling.LowerOfLower | telegram-bot/handlers/searchHandler.js:41 | lower-casing a string with no upper-case letter changes nothing |
| SearchHandling.LongWordsIff | telegram-bot/handlers/searchHandler.js:43 | a word is indexed exactly when it is a description word longer than three characters |
| SearchHandling.PiecesLower | telegram-bot/handlers/searchHandler.js:41 | the pieces of a lower-cased description are lower-case already |
| SearchHandling.IndexKeysIff | telegram-bot/handlers/searchHandler.js:37-47 | an item without a name adds no key; otherwise its keys are exactly its lower-cased name and the description words longer than three characters, none empty and all lower-case |
| SearchHandling.NoDescriptionNoKeywords | telegram-bot/handlers/searchHandler.js:40 | a missing description adds no key |
| SearchHandling.LastInRun | telegram-bot/handlers/searchHandler.js:36-49 | a key inserted within one item's run leads to that item |
| SearchHandling.LaterItemWins | telegram-bot/handlers/searchHandler.js:36 | when two items share a key, the key leads to the one indexed later |
| SearchHandling.LatestInsert | telegram-bot/handlers/searchHandler.js:38 | one `trie.insert` adds its key and makes the key lead to that item, keeping the other keys in step |
| SearchHandling.IndexedStep | telegram-bot/handlers/searchHandler.js:44 | one more key of the item keeps the index in step |
| SearchHandling.BuiltOpen | telegram-bot/handlers/searchHandler.js:36 | before an item, the index is in step with the items before it |
| SearchHandling.BuiltClose | telegram-bot/handlers/searchHandler.js:36-49 | once an item's keys are in, the index holds the insertions of one more item |
| SearchHandling.LookupMatches | telegram-bot/handlers/searchHandler.js:79 | at most ten matches; none when no key starts with the query; each is a stored word starting with the lower-cased query with the item stored for it; all of them when ten or fewer words start with it |
| SearchHandling.AnswerIgnoresCase | telegram-bot/handlers/searchHandler.js:76 | the case of the query's letters does not change the reply |
| SearchHandling.SearchHandler.constructor | telegram-bot/handlers/searchHandler.js:13-20 | an empty trie, then the index of the fetched items: the keys are exactly their keys, each leading to the last item indexed under it |
| SearchHandling.SearchHandler.BuildIndex | telegram-bot/handlers/searchHandler.js:25-56 | the cache becomes the fetched list (`[]` when missing or failed), keys are only added, and each key leads to the last item indexed under it |
| SearchHandling.SearchHandler.AddKey | telegram-bot/handlers/searchHandler.js:38 | one `trie.insert` of a lower-case key adds it to the item's keys |
| SearchHandling.SearchHandler.IndexItem | telegram-bot/handlers/searchHandler.js:36-49 | indexes one item under exactly its keys |
| SearchHandling.SearchHandler.IndexWords | telegram-bot/handlers/searchHandler.js:42-46 | indexes the item under exactly its description words longer than three characters |
| SearchHandling.SearchHandler.IndexWord | telegram-bot/handlers/searchHandler.js:43-45 | one word is added when longer than three characters, skipped otherwise |
| SearchHandling.SearchHandler.Handle | telegram-bot/handlers/searchHandler.js:61-140 | a blank query is turned away and changes nothing; an empty cache is rebuilt first; then "no equipment" for an empty cache, "no match" when no key starts with the lower-cased, trimmed query, else up to ten matches |
| Recommending.ClassifyIgnoresCase | telegram-bot/handlers/recommendHandler.js:37-81 | the ranking chosen does not depend on the case of the criteria word |
| Recommending.PopularityComparators | telegram-bot/handlers/recommendHandler.js:61-65 | `scoreA - scoreB` and `scoreB - scoreA` are valid comparators: the first puts the lower score first, the second the higher |
| Recommending.QueueTop | telegram-bot/handlers/recommendHandler.js:61-68 | enqueueing everything then `topK(k)` gives `k` items (all, when fewer), a rearranged part of the input, in the comparator's order and none after an item left out |
| Recommending.PopularAsWritten | telegram-bot/handlers/recommendHandler.js:58-71 | the popularity branch as written: ten items (all, when fewer), lowest score first, none scoring above an item left out |
| Recommending.PopularCounterexample | telegram-bot/handlers/recommendHandler.js:61-68 | with scores 3 and 8 the "most popular" list starts with the score-3 row |
| Recommending.MostPopular | telegram-bot/handlers/recommendHandler.js:58-71 | the intended popularity branch: ten items (all, when fewer), highest score first, none scoring below an item left out |
| Recommending.BestValueMeaning | telegram-bot/handlers/recommendHandler.js:75-78 | under the best-value criteria a row goes no later than another exactly when its rating is higher, or equal with a price no higher |
| Recommending.RankByPrice | telegram-bot/handlers/recommendHandler.js:44 | a rearrangement of the catalogue with prices non-decreasing |
| Recommending.RankByRating | telegram-bot/handlers/recommendHandler.js:53 | a rearrangement of the catalogue with ratings non-increasing, equal ratings in catalogue order |
| Recommending.RankBestValue | telegram-bot/handlers/recommendHandler.js:75-78 | a rearrangement of the catalogue by rating high to low, then price low to high |
| Recommending.RankByPopularity | telegram-bot/handlers/recommendHandler.js:58-71 | the popularity branch the handler runs: the ten lowest scores, lowest first, none above an item left out |
| Recommending.Rank | telegram-bot/handlers/recommendHandler.js:39-81 | the ranking the branch selects has that branch's order; every branch but popularity keeps the whole catalogue |
| Recommending.Recommend | telegram-bot/handlers/recommendHandler.js:24-84 | nothing exactly when the catalogue is missing or empty; otherwise the first five of the ranking the lower-cased, trimmed criteria word selects |
| Commands.SplitAtFirst | telegram-bot/handlers/commandHandler.js:23 | splitting at a first space gives the text before it, then the pieces of the rest |
| Commands.CommandAndArgs | telegram-bot/handlers/commandHandler.js:23-24 | the command is the first word, lower-cased, and the arguments are everything after the first space, spaces included |
| Commands.CommandAlone | telegram-bot/handlers/commandHandler.js:23-24 | a text with no space is a command with empty arguments |
| Commands.CommandRoundTrip | telegram-bot/handlers/commandHandler.js:23-24 | the first word, then a space, then the arguments give back the text, the command being that word lower-cased |
| Commands.LowerKeepsSpaceOut | telegram-bot/handlers/commandHandler.js:23 | lower-casing a word adds no space |
| Commands.HandleCommandRoutes | telegram-bot/handlers/commandHandler.js:22-57 | a message goes to the handler its lower-cased first word names, with the rest as arguments, case kept |
| Commands.HandleCommandIgnoresCase | telegram-bot/handlers/commandHandler.js:23 | lower-casing the first word changes no route |
| Commands.DispatchKnown | telegram-bot/handlers/commandHandler.js:27-57 | only the six known commands avoid the unknown-command reply, and the three that take arguments receive them unchanged |

## Left out

Contracts that are weaker than, or narrower than, what the code does:

- Text.Lower: folds only `A`–`Z`, while `toLowerCase` folds all of Unicode. For example, the Kelvin sign U+212A folds to `k`, so `/booK` would reach `/book`. Unicode case mapping is not modelled. This touches every member that lower-cases: Commands.HandleCommand, Recommending.Classify, Locating.Geocode, Tries.Trie.Insert and SearchHandling.SearchHandler.BuildIndex. Their contracts hold for the ASCII folding only.
- Knapsack.Solve: requires `capacity >= 0` and integer weights of at least 0.
  - A capacity below -1 throws a `RangeError` in `new Array`.
  - Negative or fractional weights index the table with `NaN` or negative subscripts.
  - Neither the exception nor `NaN` arithmetic is modelled.
- Knapsack.SolveOptimized and Knapsack.Unbounded: the same `capacity >= 0` and weight requirements as Knapsack.Solve, for the same reason. Knapsack.FillTable and Knapsack.WalkBack are the helpers that carry them.
- Knapsack.OptimizeEquipment: requires `budget >= 0` and non-negative weights, because it is Knapsack.Solve applied to `Math.floor(budget)`.
- PriceOptimizing.OptimizeCombination: requires `maxDays >= 0` and whole, non-negative durations, for the same reason as Knapsack.Solve.
- Locating.Lookup: searches the ten own entries of the city table. `locationMap[query]` also finds inherited properties such as `constructor` and `toString`, which give the code `NaN` coordinates. Prototype lookups are not modelled.
- Locating.OnMap: reads coordinates that are already parsed, as `Option<real>`. `parseFloat`'s prefix parsing is abstracted away: `"12.5abc"` gives 12.5, and `"abc"` gives `None`.
- MergeSorting.Sort, QuickSorting.Sort and HeapSorting.Sort: the sort key is a function `T -> real`, and ordering is by real comparison. The code compares `a[sortBy]` with `>` and `<`, which also compares strings and mixed types. Comparing strings, `undefined` or mixed types is not modelled.
- QuickSorting.CriterionCompare and QuickSorting.MultiCriteriaSort: a criterion's field is a function `T -> real`, so the comparison is always the difference of two numbers. The code falls back to `aVal > bVal ? 1 : aVal < bVal ? -1 : 0` when either value is not a number (quickSort.js:125-129), which orders strings by code unit and compares `undefined` or mixed values by the loose rules of `>` and `<`. That branch is not modelled.
- HashTables.HashTable.constructor: requires `size > 0`. In the code, `new HashTable(0)` builds no buckets, and the first `set` or `get` then indexes bucket `NaN` and throws a TypeError; a negative size throws a RangeError in `Array(size)`. Neither error path is modelled.
- HashTables.Slot: an opaque integer hash reduced by `|hash| % size`. The djb2 string hash with 32-bit `<<` is not modelled bit for bit. For numeric keys the code uses `key % size`, which is negative for negative keys and indexes a missing bucket. The model keeps the slot in range instead.
- HashTables.HashTable.Has: true exactly when the key is stored. The code's `get(key) !== undefined` is also false for a key stored with the value `undefined`, which the model has no value for.
- SearchTrees.BinarySearchTree.Insert: the default comparator compares `a.id || a`. The model orders by a key function `T -> real`, so falsy ids and string ids are not modelled.
- Bookings.SelectWeighted: states which bookings the reconstruction lists (the walk back along `parent`), that they do not overlap and that they come from the input. It does not state that they have the largest total value, because the code as written drops bookings from the walk (see Findings); the corrected walk Bookings.WalkTaken is proved to be worth `dp[n - 1]`.
- ShortestPaths.ReconstructPath: requires that following `previous` from `endNode` reaches a node with no predecessor. The code loops forever on a cycle of links. It also loops forever when `endNode` is not in the graph, because `previous[endNode]` is then `undefined`, not `null`.
- MergeSorting.ExternalMergeSort: a `chunkSize` of 0 or less falls back to one merge sort. The code never ends in that case (see "Findings").
- Bookings.Resolve: a conflict group with no pick yields `None`. This stands for the code's `undefined` entry.

Operations and behaviour not modelled:

- The haversine distance is a parameter `calculateDistance` of the location operations. Floating-point trigonometry is not modelled, and results hold for any distance function.
- `fractionalKnapsack` (`knapsack.js`): it works on floating-point value/weight ratios and fractions of items.
- `findOptimalRentalDuration` (`priceOptimizer.js`): it works with floating-point discount percentages, and it sorts the caller's discount array in place.
- `findBestTimeSlot` (`bookingOptimizer.js`): it reads `Date.now()`, seeds with `Infinity`, and scores with floating-point arithmetic.
- `countWordsWithPrefix` (`trie.js`): it always returns 0, so there is nothing to prove about it.
- `getGraph` and `getLocations` return the builder's internal state. In the model they are the class's fields.
- Floating point in general: numbers are exact reals, so rounding, `NaN` and `Infinity` do not arise.
- Keys of JavaScript objects are strings. The model keys maps by the value itself and does not model the stringification of numeric ids.
- The Supabase queries and the Telegram API are left out: `sendMessage`, inline keyboards, Markdown formatting and console logging. A handler's result is the data it would send. A failed fetch is `None`, and a `null` result from the cache is treated as an empty list.
- The asynchronous rebuild of the search index runs as one sequential step.
- `searchHandler.js` merge-sorts the results and then discards the sorted copy. The model leaves out the discarded sort.
- Trie nodes are addressed by their path from the root, and node links are values rather than shared pointers. Aliasing between nodes is therefore not modelled.
- Fuzzy search results are stated as a set of words within the edit distance. Their order is not stated.
- PriorityQueues.PriorityQueue.TopK: after dequeuing, the code enqueues each removed item again with `_getPriority(item)`, that is, with the item itself as its priority. The model puts back the same (item, item) pairs. It does not state how a comparator meant for priorities treats such an element when it is later compared with the others.
- The React web client and the bot's start-up code are not part of this model.

## Findings

| source | as written | input that shows it | evidently intended | confidence | as-written member | corrected member |
|---|---|---|---|---|---|---|
| telegram-bot/handlers/recommendHandler.js:61-68 | the "popular" branch builds `MaxPriorityQueue((a, b) => scoreA - scoreB)`, whose root is the element with the smaller score, then takes `topK(10)` | two items with rating 3 and rental count 1 (score 3), and rating 4 and rental count 2 (score 8): the item scoring 8 is listed second | the most rented items first (comparator `scoreB - scoreA`) | not executed | Recommending.PopularAsWritten, Recommending.PopularCounterexample | Recommending.MostPopular |
| telegram-bot/algorithms/dynamic/knapsack.js:48 | the walk back through the table runs `for (i = n; i > 0 && w > 0; i--)`, so it stops as soon as the remaining capacity is 0 (also line 93 of the optimised variant) | items of value 300 and weight 0, then value 300 and weight 5, capacity 5: `maxValue` is 600 but only the second item is selected | walk back over every item (`i > 0` alone), so the selected items add up to `maxValue` | not executed | Knapsack.TraceAsWritten, Knapsack.TraceAsWrittenDropsFreeItems | Knapsack.Trace, Knapsack.TraceOptimal |
| telegram-bot/algorithms/search/trie.js:135-166 | `delete` returns the result of the recursive helper, which is true only when the root itself is left with no children and no word | insert "cat" and "dog", delete "cat": the word is removed but `false` is returned | report whether the word was stored and has been removed | not executed | Tries.Trie.Delete, Tries.DeleteReportsFailure | Tries.Trie.Remove |
| telegram-bot/algorithms/sorting/mergeSort.js:126 | the chunk loop `for (i = 0; i < arr.length; i += chunkSize)` never advances when `chunkSize <= 0` | `chunkSize` 0 and `arr` `[1, 2]` | fall back to one merge sort, as for a chunk size of at least `arr.length` | not executed | MergeSorting.ChunkStartsAsWritten, MergeSorting.ChunkLoopNeverEnds | MergeSorting.ExternalMergeSort, MergeSorting.ChunkLoopEnds |
| telegram-bot/algorithms/greedy/bookingOptimizer.js:85 | the reconstruction lists `sorted[i]` only when `parent[i] !== i - 1`, but `parent[i]` is `i - 1` both when booking `i` is skipped and when it is taken with booking `i - 1` as its last compatible one; `parent[0]` is -1, which is `0 - 1` | one booking: nothing is listed although `dp[0]` counts it; two back-to-back bookings 0–1 and 1–2 worth 5 each: `dp[1]` is 10 and nothing is listed | record whether each entry took its booking, list the taken ones and move to their last compatible booking, so the list is worth `dp[n - 1]` | not executed | Bookings.WalkSkipsFirst, Bookings.WalkDropsAdjacent | Bookings.WalkTaken, Bookings.WalkTakenWorth, Bookings.WalkTakenCompatible |
