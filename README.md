# A small search engine, modelled in Dafny

The search engine indexes a set of text pages and answers queries. Each
page keeps an AVL tree map from each of its words to the increasing list of
positions where the word occurs. A query's score on a page is the total
number of occurrences of the query's whitespace-separated terms. A binary
max-heap of pages, ordered by that score, hands the best pages out one
`poll` at a time.

The project models four parts:

- `avl_tree_map.dfy` (module `AvlTreeMap`) models the AVL tree map.
  - The tree is a value (`Leaf | Node(key, value, height, left, right)`).
    The Python nodes are never shared, and `put_recursive` returns the new
    subtree root, so a value model is faithful.
  - `put`, `get`, `balance`, the four rotations and `search_path` are
    modelled as functions.
  - The lemmas prove the search-tree order, the AVL balance, the stored
    heights, the get/put laws and the logarithmic height.
- `web_page_index.dfy` (module `PageIndex`) models one page.
  - The index-building loop of the constructor runs over a given word list.
  - It also models `get_count`, `set_priority`, `get_priority` and
    `remove_punctuation`. The page is a class whose mutable field is
    `priority`.
- `web_page_priority_queue.dfy` (module `PageQueue`) models the ranking
  queue.
  - It is a class over an `array<WebPageIndex?>` with `currSize`. The root
    is at slot 1, and slot 0 holds the `None` slot or the insertion
    sentinel.
  - It models `__init__`, `reheap`, `build_heap`, `precolate_down`, `peek`,
    `poll` and `insert` (with integer halving).
  - Each loop is proved against a function on sequences in
    `heap_order.dfy` (module `HeapOrder`): `SiftDown` for
    `precolate_down` and `SiftUp` for the loop of `insert`. The heap
    facts are proved about those functions.
- `queries.dfy` (module `Queries`) models `ProcessQueries.query`.
  - Instead of printing each query's file names, it returns the list of
    polled pages for each query.
  - It proves that each list has `min(n, query_num)` entries, draws its
    pages from the page list, is in non-increasing order of score, and
    leaves out no page that scores higher than a page it lists.

`strings.dfy` (module `Strings`) holds two pieces of Python's `str` that
the code relies on:

- `<` on strings, which orders the keys of the map;
- `str.split()` without arguments, which cuts queries into terms.

`insert_as_written.dfy` (module `InsertAsWritten`) models when `insert`,
as written with its float hole, succeeds and what it then stores (see
Findings). It works on the priorities of the slots.

`wrappers.dfy` (module `Wrappers`) holds `Option`, which stands for a
value or Python's `None`.

## Model

| member | source | states |
|---|---|---|
| Strings.Less | AVLTreeMap.py:96-101 | Python's `<` on `str`: code points compared left to right, a proper prefix first; the lemmas below prove it a strict total order |
| Strings.LessIrreflexive | AVLTreeMap.py:96-101 | no key is below itself under Python's string `<` |
| Strings.LessAsymmetric | AVLTreeMap.py:96-101 | `a < b` excludes `b < a` |
| Strings.LessTransitive | AVLTreeMap.py:96-101 | `<` on keys is transitive |
| Strings.LessTotal | AVLTreeMap.py:96-101 | two different keys are ordered one way or the other, so `==`, `>` and the `else` branch cover every case |
| Strings.Split | WebPageIndex.py:52 | `str.split()` yields non-empty terms without whitespace, whose concatenation is the non-whitespace characters of the input in order |
| Strings.SplitJoin | WebPageIndex.py:52 | splitting words laid out with any non-empty runs of whitespace between them, and any whitespace before and after, gives back exactly those words |
| Strings.Gaps | WebPageIndex.py:52 | every text is its split terms laid out with runs of whitespace, non-empty between terms; with `SplitJoin`, `str.split()` returns exactly the maximal runs of non-whitespace |
| AvlTreeMap.SearchPath | AVLTreeMap.py:85-91 | the preorder key list has one entry per node and holds exactly the keys of the tree |
| AvlTreeMap.SearchPathDistinct | AVLTreeMap.py:85-91 | on a search tree the preorder key list lists every key once |
| AvlTreeMap.Get | AVLTreeMap.py:93-101 | `get_recursive`: `None` at an absent child, the value at an equal key, otherwise down the right subtree when the key is above the node's and the left one otherwise; `GetIsLookup` states what it returns |
| AvlTreeMap.Height | AVLTreeMap.py:166-167 | `height`: -1 for an absent child, otherwise the node's stored height |
| AvlTreeMap.GetIsLookup | AVLTreeMap.py:93-101 | on a search tree, `get` returns the value paired with the key in the in-order listing, or `None` |
| AvlTreeMap.GetMissing | AVLTreeMap.py:93-95 | `get` of a key absent from the tree is `None` |
| AvlTreeMap.RotateWithLeftChild | AVLTreeMap.py:150-156 | the left child becomes the root with the old root as its right child; the in-order pairs, keys and size are unchanged; stored heights stay non-negative |
| AvlTreeMap.RotateWithRightChild | AVLTreeMap.py:158-164 | the mirror image: the right child becomes the root, in-order pairs, keys and size unchanged |
| AvlTreeMap.DoubleWithLeftChild | AVLTreeMap.py:142-144 | the left child's right child becomes the root; in-order pairs, keys and size unchanged |
| AvlTreeMap.DoubleWithRightChild | AVLTreeMap.py:146-148 | the right child's left child becomes the root; in-order pairs, keys and size unchanged |
| AvlTreeMap.RotateWithLeftChildBst | AVLTreeMap.py:150-156 | a single rotation keeps the search-tree order |
| AvlTreeMap.RotateWithRightChildBst | AVLTreeMap.py:158-164 | a single rotation keeps the search-tree order |
| AvlTreeMap.RotateWithLeftChildAvl | AVLTreeMap.py:128-130 | when the left side is two higher and its outer grandchild at least as high as the inner (the `>=` tie), one rotation yields an AVL tree of height that of the left child or one more |
| AvlTreeMap.RotateWithRightChildAvl | AVLTreeMap.py:133-135 | the mirror case of the single rotation yields an AVL tree |
| AvlTreeMap.DoubleWithLeftChildAvl | AVLTreeMap.py:128-132 | when the inner grandchild is strictly higher, the double rotation yields an AVL tree of the left child's height |
| AvlTreeMap.DoubleWithRightChildAvl | AVLTreeMap.py:133-137 | the mirror case of the double rotation yields an AVL tree |
| AvlTreeMap.Balance | AVLTreeMap.py:125-140 | `balance` keeps a node a node, the in-order pairs, keys and size, and non-negative heights |
| AvlTreeMap.BalanceBst | AVLTreeMap.py:125-140 | `balance` keeps the search-tree order |
| AvlTreeMap.BalanceGet | AVLTreeMap.py:125-140 | `get` gives the same answer for every key before and after `balance` |
| AvlTreeMap.BalanceAvl | AVLTreeMap.py:125-140 | on AVL children whose heights differ by at most 2, `balance` yields an AVL tree with exact stored heights, one level above the higher child or at that level; when they differ by at most 1 only the node's height is recomputed |
| AvlTreeMap.Put | AVLTreeMap.py:103-115 | `put` returns a node; its key set is the old one plus the new key |
| AvlTreeMap.PutBst | AVLTreeMap.py:103-115 | `put` keeps the search-tree order |
| AvlTreeMap.PutGet | AVLTreeMap.py:103-115 | after `put(k, v)`, `get(k)` is `v` and `get` of every other key is unchanged |
| AvlTreeMap.PutAvl | AVLTreeMap.py:103-115 | `put` keeps every node balanced within 1 with heights equal to 1 + the higher child (absent child -1, new leaf 0), and grows the height by at most 1 |
| AvlTreeMap.PutSize | AVLTreeMap.py:103-115 | `put` adds one node for a new key and none for an existing one |
| AvlTreeMap.SetValue | AVLTreeMap.py:109-110 | replacing a node's value keeps the keys, size, preorder key list, height and AVL shape |
| AvlTreeMap.PutExisting | AVLTreeMap.py:109-115 | on an AVL search tree, `put` of an existing key only replaces that node's value |
| AvlTreeMap.AvlMinNodes | AVLTreeMap.py:125-140 | an AVL tree of height h holds at least the minimum node count of that height |
| AvlTreeMap.AvlHeightLogarithmic | AVLTreeMap.py:125-140 | an AVL tree of height h holds at least 2^((h+1)/2) - 1 nodes |
| AvlTreeMap.PutAllCorrect | AVLTreeMap.py:74-80 | any sequence of `put` calls keeps an AVL search tree, and `get` returns the last value put under the key, or what it returned before |
| AvlTreeMap.FromEmpty | AVLTreeMap.py:57-58 | from the empty map, `get` after a sequence of `put` calls is the last value put under the key, `None` if never put |
| AvlTreeMap.DemoLookups | AVLTreeMap.py:171-185 | after the ten demonstration puts, `get(13)` is "nancy", `get(36)` is "erin" and `get(7)` is "ben" |
| PageIndex.PositionsExact | WebPageIndex.py:29-35 | the list for a word holds exactly the positions where it stands, strictly increasing, as many as its occurrences |
| PageIndex.IndexStep | WebPageIndex.py:30-35 | one loop step (get the list or start `[index]`, append `index`, put it back) turns the index of the first i words into the index of the first i+1, with one more stored position |
| PageIndex.IndexStepAt | WebPageIndex.py:30-35 | after that step, looking up any word gives its positions among the first i+1 words, `None` for a word not among them |
| PageIndex.BuildIndex | WebPageIndex.py:28-35 | the loop leaves an AVL search tree that maps every word of the list to the list of its positions, holds no other key, and whose lists sum to the number of words |
| PageIndex.WebPageIndex.constructor | WebPageIndex.py:15-35 | a new page has priority 0 and the index of its word list |
| PageIndex.WebPageIndex.GetCount | WebPageIndex.py:46-57 | the loop sums the stored list length of each term of the split query, 0 for an absent term, counting repeated terms each time |
| PageIndex.WebPageIndex.SetPriority | WebPageIndex.py:37-44 | `set_priority` changes only `priority`, to the count of the query, which `get_priority` then returns |
| PageIndex.TermsCountIsOccurrences | WebPageIndex.py:46-57 | on a page's index, the count of a term list is the number of occurrences of those terms among the page's words |
| PageIndex.ReplaceWithBlank | WebPageIndex.py:70 | `str.replace(c, " ")` keeps the length, leaves no `c` behind (for `c` not a blank) and keeps every other character |
| PageIndex.WebPageIndex.GetPriority | WebPageIndex.py:42-44 | `get_priority` reads the priority; `SetPriority` states what it then returns |
| PageIndex.RemovePunctuation | WebPageIndex.py:67-71 | the text keeps its length, each of the nine listed characters becomes a blank, every other character stays |
| PageIndex.DemoQueryTerms | WebPageIndex.py:82 | "collection array in an" splits into its four terms |
| PageIndex.CollectionArrayScore | WebPageIndex.py:82 | any page whose words hold "collection" once, "array" twice and neither "in" nor "an" scores 1 + 2 + 0 + 0 for that query |
| HeapOrder.ChildOnPath | WebPagePriorityQueue.py:64-66 | `precolate_down` compares with the left child, or with the right child when one exists |
| HeapOrder.SiftDownSorts | WebPagePriorityQueue.py:63-72 | from any state of the `precolate_down` loop, finishing it fills slots 1..n, orders every parent from the start down, keeps the pages and moves nothing outside the start..n range |
| HeapOrder.PercolateSorts | WebPagePriorityQueue.py:61-72 | when both subtrees of `hole` are heaps, `precolate_down(hole)` makes the subtree at `hole` a heap, permuting only slots `hole..curr_size` |
| HeapOrder.RootOutranks | WebPagePriorityQueue.py:21-26 | in a heap the root ranks at least as high as every slot |
| HeapOrder.RemoveRootSorts | WebPagePriorityQueue.py:28-36 | moving the last page to the root and percolating it down leaves a heap of the other pages, none ranking above the old root |
| HeapOrder.SiftUpSorts | WebPagePriorityQueue.py:52-55 | from any state of the `insert` loop, finishing it yields a heap holding the pages plus the new one, nothing else moved |
| HeapOrder.InsertSorts | WebPagePriorityQueue.py:47-55 | `insert` with integer halving turns a heap of n pages into a heap of those pages plus the new one, in slots 1..n+1 |
| PageQueue.WebPagePriorityQueue.constructor | WebPagePriorityQueue.py:14-19 | a new queue holds every page once in a heap with slot 0 `None`, each page scored for the query |
| PageQueue.WebPagePriorityQueue.RootIsMax | WebPagePriorityQueue.py:21-26 | in a heap, the priority at slot 1 is at least that of every slot up to `curr_size` |
| PageQueue.WebPagePriorityQueue.Peek | WebPagePriorityQueue.py:21-26 | `peek` is `None` exactly when `curr_size <= 0`, otherwise slot 1, whose priority is the highest |
| PageQueue.WebPagePriorityQueue.Polled | WebPagePriorityQueue.py:28-36 | after the last page replaces the root and percolates down, the heap holds the old pages but the root, none of higher priority |
| PageQueue.WebPagePriorityQueue.Poll | WebPagePriorityQueue.py:28-36 | on an empty heap `None` and nothing changes; otherwise the old root, a page of maximum priority, comes out, `curr_size` drops by 1, the heap holds the other pages and stays a heap |
| PageQueue.WebPagePriorityQueue.Reheap | WebPagePriorityQueue.py:38-45 | after `reheap(q)` there is a fresh array, slot 0 `None`, `curr_size` the number of pages, slots 1..n a permutation of the pages forming a heap, every page's priority its count for `q` |
| PageQueue.WebPagePriorityQueue.Inserted | WebPagePriorityQueue.py:47-55 | after the climb, the array is a heap of the old pages plus the new one |
| PageQueue.WebPagePriorityQueue.Insert | WebPagePriorityQueue.py:47-55 | `insert` grows `curr_size` by 1, leaves the new page in the sentinel slot 0, and keeps a heap of the old pages plus the new one |
| PageQueue.WebPagePriorityQueue.Climb | WebPagePriorityQueue.py:52-55 | the loop of `insert` moves each parent the new page strictly outranks down a level, then drops the page in the hole, as `SiftUp` describes |
| PageQueue.WebPagePriorityQueue.BuildHeap | WebPagePriorityQueue.py:57-59 | percolating down each parent from `curr_size / 2` to 1 makes slots 1..n a heap of the same pages, slot 0 and later slots untouched |
| PageQueue.WebPagePriorityQueue.Percolated | WebPagePriorityQueue.py:61-72 | after `precolate_down(start)` over ordered subtrees, every parent from `start` down is ordered and only slots `start..curr_size` moved |
| PageQueue.WebPagePriorityQueue.PercolateDown | WebPagePriorityQueue.py:61-72 | the loop moves the strictly larger child up (the right one only when strictly above the left) while it strictly outranks the held page, then drops the held page in the hole, as `SiftDown` describes |
| Queries.ResultCount | ProcessQueries.py:37-39 | the count is every page when no count is given, otherwise the smaller of the count and the number of pages |
| Queries.ProcessQueries.constructor | ProcessQueries.py:9-11 | a new engine has no pages and no queries |
| Queries.ProcessQueries.Query | ProcessQueries.py:28-47 | nothing for no queries; otherwise one list per query in order, each of `ResultCount` pages drawn from the pages, best first, and no page left out above a page listed; priorities end scored for the last query |
| Queries.Answers | ProcessQueries.py:36-47 | once there are queries: a queue over the pages, the count fixed by `ResultCount`, then each query answered in order by that many pages best first; the pages end scored for the last query |
| Queries.AnswerAll | ProcessQueries.py:40-47 | the loop over the queries answers each in order |
| Queries.Answer | ProcessQueries.py:41-46 | `reheap` then `num` polls give `num` pages best first for that query alone |
| Queries.TakeBest | ProcessQueries.py:42-46 | polling `num` times from a heap of all pages never meets an empty heap and takes the `num` best pages in non-increasing order of score |
| Queries.TakeOne | ProcessQueries.py:44-45 | one poll returns a page and extends the pages taken, the rest staying queued |
| Queries.PollStep | ProcessQueries.py:44-45 | the polled page scores at most as the pages taken before it and at least as every page left queued |
| Queries.Selected | ProcessQueries.py:44-46 | when the loop stops, the pages taken are best first and no page left out scores above them |
| InsertAsWritten.IntHalf | WebPagePriorityQueue.py:52 | `int(hole / 2)` is non-negative, and the integer half while the hole is an integer |
| InsertAsWritten.Halve | WebPagePriorityQueue.py:54 | `hole /= 2` always yields a float |
| InsertAsWritten.Store | WebPagePriorityQueue.py:53 | a list store succeeds exactly at an integer index inside the list |
| InsertAsWritten.Sift | WebPagePriorityQueue.py:52-55 | the loop of `insert` and the store after it, with the hole halved by true division; on success the list keeps its length |
| InsertAsWritten.Insert | WebPagePriorityQueue.py:47-55 | `insert` as written on the slots' priorities: the new priority in slot 0, the hole at `curr_size + 1`; on success the list keeps its length |
| InsertAsWritten.InsertFailsUnlessStill | WebPagePriorityQueue.py:47-55 | as written, `insert` succeeds exactly when there is a slot after the heap and the new page does not outrank its first parent, and then only stores the page there |
| InsertAsWritten.RisingPageFails | WebPagePriorityQueue.py:52-54 | a root of priority 1 and a free slot: inserting priority 2 fails |

## Left out

- File and directory reading is not modelled. This covers `os.path.split`, `open`/`read` in the page constructor, and `ProcessQueries.read`. The page constructor takes the file name and the word list. `Query` works on the pages and queries already held.
- Printing is not modelled: `print`, `print_recursive`, `__str__` and `__repr__`. `Query` returns the polled pages instead of printing their file names.
- `lower_case` is not modelled, because Python's Unicode `str.lower` has no counterpart here. The page's words are taken as already lower-cased.
- The `AVLTreeMap` wrapper class, which holds only `root`, is not modelled. `put`, `get` and `search_path` are the functions on the tree value. The doc comment of `put` misdescribes its result; the code returns the new root, and so does the model.
- The key comparison dunders of `AVLTreeNode` are not modelled. Keys are strings compared as Python compares `str`. The integer keys of the map's demonstration are written as strings, which changes no lookup.
- `Strings.Split`: its own contract does not say that each term is a maximal run; `Strings.Gaps` and `Strings.SplitJoin` together pin that down.
- `Strings.Split`: the whitespace set is that of `str.isspace()` for every code point Dafny's `char` holds.
- `PageIndex.CollectionArrayScore`: the demonstration reads `test data/doc1-arraylist.txt`, whose text the model does not include. The lemma states the score for every page whose words hold "collection" once, "array" twice and neither "in" nor "an".
- `PageIndex.WebPageIndex.GetPriority` is a plain read of `priority`. Its contract is stated through `SetPriority`.
- `PageQueue.WebPagePriorityQueue.Insert` requires a free slot after the heap. The Python list is never extended, so a full array raises an IndexError (as `InsertAsWritten.Store` shows).
- `PageQueue.WebPagePriorityQueue.Insert` models the intended integer halving; the code as written is in `InsertAsWritten`.
- `InsertAsWritten.Insert` turns both errors into `None`. It drops what Python has already done when the error is raised: `curr_size` has grown by one and slot 0 holds the new page; on the TypeError path only, the parent has also been copied into slot `curr_size`. It models priorities, not page objects.
- `PageQueue.WebPagePriorityQueue.Insert` is not called by the query pipeline.
- `Queries.ProcessQueries.Query` requires a non-negative count. With a negative `query_num` the polling loop runs past the last page: `poll` then returns `None`, and reading its `file_name` raises an AttributeError (at once when there are no pages). The model does not describe that error.
- `Queries.ProcessQueries.Query` does not pin down which of several equally scored pages are listed. It states only that no page left out scores above a page listed. Ties in `precolate_down` go to the left child (the code's strict `>`, modelled in `HeapOrder.ChildOnPath`).
- `Queries.ProcessQueries.Query` does not state that a query's list is independent of earlier queries beyond this. `reheap` rebuilds the array from the page list, and each result is characterised by the pages and its own query only.
- The shallow `copy` in the queue's constructor is not modelled on its own. The constructor allocates the array and runs `reheap`, which replaces it at once. The page objects are shared between the page list and the array, as in Python, so `reheap` rescores the caller's pages.

## Findings

| source | as written | input that shows it | evidently intended | confidence | as-written member | corrected member |
|---|---|---|---|---|---|---|
| WebPagePriorityQueue.py:54 | `hole /= 2` makes the hole a float. The next store `self.arr[hole] = ...` raises a TypeError, so `insert` fails whenever the new page outranks the parent of the first hole. | a heap whose root has priority 1, with a free slot after it (priorities `[_, 1, _]`, `curr_size` 1); insert a page of priority 2 | integer halving, so that the page climbs to the root | not executed | InsertAsWritten.RisingPageFails | PageQueue.WebPagePriorityQueue.Insert |
