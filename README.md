# Verified models of a set of algorithm exercises

This project models, in Dafny, the algorithmic core of a collection of
Python exercises and proves what each algorithm promises:

- **Shortest paths** (`goit-algo-fp/exercise3.py`).
  - A weighted adjacency-list graph with `add_edge` and `vertices`.
    `vertices` is `WeightedGraph.Graph.Vertices`, the key set of the map.
  - Dijkstra's algorithm with a push-only heap and lazy deletion.
  - Reconstruction of a path from the parent links.
- **Substring search** (`goit-algo-hw-05/exercise.py`).
  - Boyer–Moore–Horspool, Knuth–Morris–Pratt with its border table, and Rabin–Karp with a rolling hash.
  - All three are proved equal to one reference search for the leftmost occurrence.
- **Singly linked list** (`goit-algo-fp/exercise1.py`).
  - Nodes are heap objects whose `next` links are rewritten in place.
  - Operations: append, extend, to-list, clear, reverse, merge sort and insertion sort by relinking, and the stable merge of two lists.
  - Also the line parser `parse_values`.
- **List sorts** (`goit-algo-hw-04/exercise3.py`).
  - Insertion sort by shifting in an array copy.
  - Top-down merge sort with a two-index merge loop.
- **Coin change** (`goit-algo-hw-10/homework/exercise1.py`).
  - The greedy method.
  - The dynamic-programming method, which fills the `dp`/`choice` arrays and walks back to count coins.
- **0/1 knapsack** (`goit-algo-fp/exercise6.py`).
  - The greedy pick by calories per cost.
  - The dynamic-programming table with reconstruction.
- **Binary search tree** (`goit-algo-hw-08/exercise1.py`).
  - Nodes whose child links insertion reassigns; build; the minimum by following left links.
  - The comma/whitespace integer parser.
- **Cable merging** (`goit-algo-hw-08/exercise3.py`). Huffman-style joining of the two shortest cables from a min-heap, and the same parser.
- **Palindrome check** (`goit-algo-hw-02/exercise2.py`). Filtering to lower-cased alphanumerics, then comparing both ends of a deque.

Modelling choices that apply throughout:

- Integers are Dafny's unbounded integers, as Python's are.
- Python exceptions become the error side of `Wrappers.Result`, or `None` of `Wrappers.Option`.
- "Infinity" (`math.inf`) becomes `None`.
- A binary heap is modelled as the multiset of its entries, with a pop that takes any least entry.
- Code that updates state step by step is written as methods with loops over arrays, maps, sequences or heap objects.
  - Each such method is proved against a pure function or predicate.
  - Lemmas prove what the source promises about that function.
- The shared modules hold code that several exercises use:
  - `Sorting` (insertion sort, merge sort, stable merge);
  - `Sequences` (reverse, distinctness);
  - `MultisetMin` (least elements);
  - `Wrappers`.

## Model

| member | source | states |
|---|---|---|
| WeightedGraph.Graph.constructor | goit-algo-fp/exercise3.py:12-13 | a new graph has no vertices |
| WeightedGraph.Graph.Vertices | goit-algo-fp/exercise3.py:22-23 | in a closed graph every vertex with a list and every end of a listed edge is a vertex |
| WeightedGraph.Graph.AddEdge | goit-algo-fp/exercise3.py:15-20 | both ends become vertices; `(v, w)` is appended to the list of `u` and, only when undirected, `(u, w)` to that of `v`; every other list is unchanged; duplicates are kept; closedness of the graph is preserved |
| ShortestPaths.Dijkstra | goit-algo-fp/exercise3.py:32-68 | fails exactly when the source is not a vertex. Otherwise: `dist` and `parent` have the vertices as keys; the source is at 0 with no parent; no edge out of a reached vertex can shorten a distance; every parent link is a graph edge whose weight is the difference of the two distances; unreached vertices have no parent; parent chains end |
| ShortestPaths.RelaxEdges | goit-algo-fp/exercise3.py:61-66 | relaxing the edges of the popped vertex in order restores the outer loop invariant, including "every finished vertex has all its edges relaxed" and "each reached unfinished vertex has exactly one heap entry at its current distance" |
| ShortestPaths.ReconstructPath | goit-algo-fp/exercise3.py:71-79 | the result follows parent links from a parentless vertex to the target; it fails exactly when a looked-up vertex is missing, which cannot happen for a key of a closed parent map |
| ShortestPaths.PathIsShortest | goit-algo-fp/exercise3.py:35-40 | for a reached target, the reconstructed path starts at the source, ends at the target, follows graph edges whose weights add up to `dist[target]`, and no walk from the source to the target is cheaper |
| ShortestPaths.Unreachable | goit-algo-fp/exercise3.py:112-114 | a target at infinite distance has path `[target]` and no walk from the source reaches it |
| ShortestPaths.WalkLowerBound | goit-algo-fp/exercise3.py:61-66 | when no edge can shorten a distance, every walk from the source costs at least the distance of its end |
| ShortestPaths.ChainCost | goit-algo-fp/exercise3.py:71-79 | a parent chain ending at a reached vertex starts at the source and is a walk whose weights sum to that vertex's distance |
| ShortestPaths.DijkstraParentsClosed | goit-algo-fp/exercise3.py:44-45 | every parent in the returned map is itself a key, so reconstruction succeeds for every vertex |
| SubstringSearch.Find | goit-algo-hw-05/exercise.py:4-63 | the reference search: -1 exactly when no occurrence exists, otherwise an occurrence with none before it |
| SubstringSearch.FindUnique | goit-algo-hw-05/exercise.py:4-63 | any leftmost occurrence (or -1 when none exists) equals `Find`, so the three searches agree |
| SubstringSearch.FindEdgeCases | goit-algo-hw-05/exercise.py:47-50 | the empty pattern is found at 0; a pattern longer than the text gives -1 |
| SubstringSearch.SkipTable | goit-algo-hw-05/exercise.py:8 | each character of `pattern[:-1]` maps to the distance from its last occurrence there to the final position |
| SubstringSearch.HorspoolShift | goit-algo-hw-05/exercise.py:16 | the shift is between 1 and m, brings the last equal pattern character under the text character, and skips no closer one |
| SubstringSearch.HorspoolSkipSafe | goit-algo-hw-05/exercise.py:12-16 | after a mismatch, none of the windows the shift skips holds an occurrence |
| SubstringSearch.BoyerMooreHorspool | goit-algo-hw-05/exercise.py:4-17 | returns exactly the leftmost occurrence, 0 for the empty pattern, -1 when absent |
| SubstringSearch.KmpTable | goit-algo-hw-05/exercise.py:19-28 | the table has one entry per pattern character, and entry `q` is the length of the longest proper border of `p[..q + 1]` (so at most `q`) |
| SubstringSearch.FallbackStep | goit-algo-hw-05/exercise.py:23-24 | falling back to the longest border after a mismatch skips no match length that the next character could extend |
| SubstringSearch.AdvanceStep | goit-algo-hw-05/exercise.py:37-40 | after a character, the new match length is the longest prefix ending there |
| SubstringSearch.BorderChain | goit-algo-hw-05/exercise.py:37-38 | the shorter prefixes that end where `p[..j]` ends are exactly the borders of `p[..j]` |
| SubstringSearch.KmpSearch | goit-algo-hw-05/exercise.py:30-43 | returns exactly the leftmost occurrence, 0 for the empty pattern, -1 when absent |
| SubstringSearch.HashExtend | goit-algo-hw-05/exercise.py:54-56 | extending the hash of a prefix by one character gives the hash of the longer prefix |
| SubstringSearch.RollWindow | goit-algo-hw-05/exercise.py:60-62 | the rolling update turns the hash of window `i` into the hash of window `i + 1` modulo `mod` |
| SubstringSearch.NoHashMiss | goit-algo-hw-05/exercise.py:58-59 | a window rejected by the hash test or the comparison is no occurrence |
| SubstringSearch.RabinKarp | goit-algo-hw-05/exercise.py:45-63 | returns exactly the leftmost occurrence for any base and positive modulus, 0 for the empty pattern, -1 when absent |
| LinkedList.Node.constructor | goit-algo-fp/exercise1.py:8-11 | a node holds its value and has no successor |
| LinkedList.ChainShape | goit-algo-fp/exercise1.py:8-11 | the nodes of a list are distinct, each links to the next, and the last links to null |
| LinkedList.SinglyLinkedList.constructor | goit-algo-fp/exercise1.py:15-19 | a list built from items holds them in order, in fresh nodes |
| LinkedList.SinglyLinkedList.Append | goit-algo-fp/exercise1.py:22-30 | the contents gain exactly the value at the end; existing nodes keep their places; one fresh node is added |
| LinkedList.LastNode | goit-algo-fp/exercise1.py:27-29 | the walk along `next` stops at the last node of the list |
| LinkedList.SinglyLinkedList.Extend | goit-algo-fp/exercise1.py:32-34 | the contents become the old contents followed by the items |
| LinkedList.SinglyLinkedList.ToList | goit-algo-fp/exercise1.py:36-41 | returns the values from head to tail |
| LinkedList.SinglyLinkedList.Clear | goit-algo-fp/exercise1.py:43-44 | the list becomes empty |
| LinkedList.SinglyLinkedList.Reverse | goit-algo-fp/exercise1.py:47-54 | the nodes, and so the contents, become those of before in reverse order |
| LinkedList.ReverseNodes | goit-algo-fp/exercise1.py:48-53 | turning every link around yields the chain of the nodes in reverse order |
| Sequences.ReverseReverse | goit-algo-fp/exercise1.py:47-54 | reversing twice restores the original contents |
| LinkedList.SinglyLinkedList.SortMerge | goit-algo-fp/exercise1.py:57-58 | the contents become the top-down merge sort (left half of `ceil(n/2)`) of the old contents |
| LinkedList.SinglyLinkedList.SortInsertion | goit-algo-fp/exercise1.py:61-62 | the contents become the stable insertion sort of the old contents |
| LinkedList.SinglyLinkedList.MergeSortedWith | goit-algo-fp/exercise1.py:65-69 | returns a fresh list whose nodes are the stable merge of both lists' nodes and whose contents are the stable merge of both contents; the result is sorted when both inputs are; both inputs keep their head and stay valid lists, each now reading as the part of the merged chain that starts at its old head |
| LinkedList.MergeChains | goit-algo-fp/exercise1.py:67-69 | the fresh list holds the chain of the stable merge of the two node chains, and each old head now heads the suffix of that merge that starts at it |
| LinkedList.FromSuffix | goit-algo-fp/exercise1.py:86-100 | the part of a chain from a node on is a suffix of it that starts at that node, and empty for a node not on it |
| LinkedList.MergedTail | goit-algo-fp/exercise1.py:86-100 | after a merge, the old head of either input starts a well-formed chain inside the merged one |
| LinkedList.FindMiddle | goit-algo-fp/exercise1.py:77-80 | the slow pointer stops at position `(n - 1) / 2` |
| LinkedList.SplitMiddle | goit-algo-fp/exercise1.py:74-83 | the chain is cut into its first `ceil(n/2)` nodes and the remaining `floor(n/2)`, two separate chains whose concatenation is the original |
| LinkedList.MergeStep | goit-algo-fp/exercise1.py:92-98 | one round links the head with the smaller key (the left one on a tie) after the tail; the merged nodes stay a prefix of the stable merge |
| LinkedList.MergeLoop | goit-algo-fp/exercise1.py:91-98 | on exit one chain is used up and the nodes linked after the dummy are a prefix of the stable merge |
| LinkedList.MergeFinish | goit-algo-fp/exercise1.py:99-100 | linking the rest of the other chain completes the stable merge, which starts after the dummy |
| LinkedList.MergeByKey | goit-algo-fp/exercise1.py:86-100 | the result is the chain of the stable merge of the two node chains |
| LinkedList.MergedValues | goit-algo-fp/exercise1.py:86-100 | the values of merged chains are the merge of their values, and sorted when both inputs are sorted |
| LinkedList.MergeSortNodes | goit-algo-fp/exercise1.py:103-110 | the result is the chain of the merge sort of the nodes, split as `_split_middle` splits |
| LinkedList.ValuesMergeSort | goit-algo-fp/exercise1.py:103-110 | sorting nodes by the key of their values gives the nodes of the sorted values |
| LinkedList.FindInsertPoint | goit-algo-fp/exercise1.py:121-123 | the scan stops after every node whose key is at most that of the node to insert, before the first larger one |
| LinkedList.InsertNode | goit-algo-fp/exercise1.py:121-125 | the node is linked in at that point, and the sorted chain holds it there |
| LinkedList.InsertNext | goit-algo-fp/exercise1.py:118-126 | one round turns the sorted chain into the insertion sort of one more input node |
| LinkedList.InsertionSortNodes | goit-algo-fp/exercise1.py:113-127 | the result is the chain of the stable insertion sort of the nodes |
| LinkedList.ValuesInsertionSort | goit-algo-fp/exercise1.py:113-127 | insertion sort of nodes by the key of their values gives the nodes of the sorted values |
| Sorting.Merge | goit-algo-hw-04/exercise3.py:22-30 | the merge has the length and the elements of both inputs together |
| Sorting.MergeSorted | goit-algo-hw-04/exercise3.py:24-30 | merging two sorted lists gives a sorted list |
| Sorting.MergeKeyClass | goit-algo-hw-04/exercise3.py:25-28 | in the merge, the elements of each key keep their order, the left list's first (stability) |
| Sorting.InsertionSortCorrect | goit-algo-hw-04/exercise3.py:5-14 | insertion sort gives a sorted permutation that keeps the order of equal keys |
| Sorting.MergeSortCorrect | goit-algo-hw-04/exercise3.py:16-31 | merge sort gives a sorted permutation that keeps the order of equal keys, whichever half is larger |
| Sorting.SortedWithSameKeyClassesEqual | goit-algo-hw-04/exercise3.py:16-31 | two sorted lists with the same elements of each key, in the same order, are equal |
| Sorting.SortsAgree | goit-algo-hw-04/exercise3.py:5-31 | insertion sort and merge sort give the same list |
| ArraySorts.InsertionSort | goit-algo-hw-04/exercise3.py:5-14 | returns a sorted permutation of the input (the input itself is a value and stays unchanged) |
| ArraySorts.InsertionPasses | goit-algo-hw-04/exercise3.py:7-13 | before pass `i` the array's first `i` elements are the sorted first `i` input elements, followed by the untouched rest |
| ArraySorts.ShiftInsert | goit-algo-hw-04/exercise3.py:8-13 | the key lands after every prefix element not greater than it, and the greater ones move one place right |
| ArraySorts.MergeSort | goit-algo-hw-04/exercise3.py:16-31 | returns a sorted permutation of the input; lists of at most one element come back as they are |
| ArraySorts.MergeLists | goit-algo-hw-04/exercise3.py:22-31 | the merge loop produces the stable merge of the two lists |
| ArraySorts.SortedPermutationIsUnique | goit-algo-hw-04/exercise3.py:5-31 | any sorted permutation of the input equals both sorts' result, so both agree with any correct sort |
| CoinChange.Desc | goit-algo-hw-10/homework/exercise1.py:10 | the denominations, largest first, are a permutation of the given ones and stay positive |
| CoinChange.GreedyCoins | goit-algo-hw-10/homework/exercise1.py:8-16 | the loop computes the greedy answer: the pass over denominations largest first, or nothing if a remainder is left |
| CoinChange.GreedyPassPays | goit-algo-hw-10/homework/exercise1.py:10-13 | the recorded coins plus the remainder pay the amount, and the remainder is never negative |
| CoinChange.GreedyPassShape | goit-algo-hw-10/homework/exercise1.py:13-15 | the recorded counts are positive, the denominations strictly decrease, and none exceeds the amount |
| CoinChange.GreedyPassKeys | goit-algo-hw-10/homework/exercise1.py:13-15 | only given denominations are recorded |
| CoinChange.GreedyChangeFacts | goit-algo-hw-10/homework/exercise1.py:8-16 | a non-empty greedy answer pays the amount exactly with positive counts of given denominations, in decreasing order; the answer is empty for a non-positive amount, and for a positive one exactly when a remainder is left |
| CoinChange.TableStart | goit-algo-hw-10/homework/exercise1.py:21 | the initial table "0 for amount 0, infinity elsewhere" is the optimum over no denominations |
| CoinChange.RelaxStep | goit-algo-hw-10/homework/exercise1.py:25-28 | one relaxation through a positive coin `c` computes the optimum over one more denomination |
| CoinChange.Relax | goit-algo-hw-10/homework/exercise1.py:25-28 | one round of the inner loop changes only `dp[a]`, to the optimum over one more denomination (unchanged for a zero coin), and keeps every recorded choice a coin that leads one coin closer |
| CoinChange.ZeroCoinExample | goit-algo-hw-10/homework/exercise1.py:23-28 | a zero denomination is never used: with coins `[0, 1]` the amount 3 takes three coins |
| CoinChange.OptMinimal | goit-algo-hw-10/homework/exercise1.py:21-28 | every way to pay an amount uses at least the table's count, which is finite whenever a way exists |
| CoinChange.OptIsFewest | goit-algo-hw-10/homework/exercise1.py:21-28 | the table entry is infinity exactly when no way exists, and otherwise the size of a way that no other way beats |
| CoinChange.Pass | goit-algo-hw-10/homework/exercise1.py:24-28 | the inner loop turns the optimum over `j` denominations into the optimum over `j + 1` (a zero denomination changes nothing), keeping every recorded choice a coin that leads one coin closer |
| CoinChange.FillTable | goit-algo-hw-10/homework/exercise1.py:23-28 | after the outer loop every entry is the fewest coins for its amount, and `choice` records a coin achieving it |
| CoinChange.Reconstruct | goit-algo-hw-10/homework/exercise1.py:31-39 | the walk back pays the amount exactly, with at most the table's count of given coins, returned as positive counts by increasing denomination |
| CoinChange.SortedItemsFacts | goit-algo-hw-10/homework/exercise1.py:39 | the sorted items list each entry of the dictionary once, keys increasing |
| CoinChange.CountsItems | goit-algo-hw-10/homework/exercise1.py:37 | tallying coins one by one gives counts worth their sum with as many coins as were tallied |
| CoinChange.MinCoins | goit-algo-hw-10/homework/exercise1.py:18-39 | for non-negative denominations: empty for a negative amount, for amount 0 and for an amount no coins pay; otherwise pays exactly the amount with the fewest coins, as positive counts of given denominations by increasing denomination |
| CoinChange.GreedyNotFewer | goit-algo-hw-10/homework/exercise1.py:8-39 | whenever the greedy method answers, the amount can be paid and the optimum uses no more coins than greedy |
| Knapsack.InsertByRatio | goit-algo-fp/exercise6.py:14 | inserting keeps exactly the dishes plus the new one |
| Knapsack.RatioSortFacts | goit-algo-fp/exercise6.py:14 | the sorted dishes are a permutation of the dishes, each with at least the calories per cost of every later one |
| Knapsack.GreedyAlgorithm | goit-algo-fp/exercise6.py:12-24 | returns the names and the calories of the dishes the greedy pass takes over the ratio order |
| Knapsack.GreedyTakeFacts | goit-algo-fp/exercise6.py:16-24 | the dishes taken are dishes of the list, each at most once; their cost plus what is left is the budget; what is left is never negative once a dish is taken or when the budget was not |
| Knapsack.GreedyWithinBudget | goit-algo-fp/exercise6.py:18-22 | with a budget that is not negative, the greedy choice costs at most the budget and uses each dish at most once |
| Knapsack.BestIsUpperBound | goit-algo-fp/exercise6.py:35-43 | no selection of the first `i` dishes within budget `b`, each at most once, has more calories than the recurrence |
| Knapsack.BestIsReached | goit-algo-fp/exercise6.py:35-43 | some selection of the first `i` dishes within budget `b` reaches the recurrence's value |
| Knapsack.BestIsOptimum | goit-algo-fp/exercise6.py:32-43 | the recurrence is the maximum calories over selections of the first `i` dishes within budget `b` |
| Knapsack.FillTable | goit-algo-fp/exercise6.py:33-43 | a fresh `(n + 1) x (budget + 1)` table whose every entry is the recurrence's value, row 0 all zero |
| Knapsack.FillRow | goit-algo-fp/exercise6.py:39-43 | fills row `i` with the recurrence from row `i - 1` and changes no other row |
| Knapsack.TakeStep | goit-algo-fp/exercise6.py:49-52 | when an entry differs from the one above, dish `i` fits and the optimum is the rest's optimum plus its calories |
| Knapsack.Reconstruct | goit-algo-fp/exercise6.py:46-54 | the walk back names dishes at strictly decreasing positions whose cost is within the budget and whose calories add up to the table's last entry |
| Knapsack.DownFromDistinct | goit-algo-fp/exercise6.py:48-52 | the recorded positions are distinct and in range |
| Knapsack.SelectFits | goit-algo-fp/exercise6.py:48-52 | dishes at distinct positions take each dish at most once |
| Knapsack.DynamicProgramming | goit-algo-fp/exercise6.py:28-54 | returns the optimum and the names of distinct dishes within the budget whose calories are that optimum; a budget of 0 with positive costs gives no dishes and 0 |
| Knapsack.DynamicAtLeastGreedy | goit-algo-fp/exercise6.py:12-54 | the dynamic-programming total is at least the greedy total |
| Knapsack.ZeroBudget | goit-algo-fp/exercise6.py:19-43 | with budget 0 and positive costs both methods take nothing and the optimum is 0 |
| SearchTree.Node.constructor | goit-algo-hw-08/exercise1.py:3-7 | a new node is a valid single-node tree holding its key |
| SearchTree.Inserted | goit-algo-hw-08/exercise1.py:9-16 | insertion always yields a node and keeps the root key |
| SearchTree.Insert | goit-algo-hw-08/exercise1.py:9-16 | the linked tree afterwards stands for the value-level insertion; the same root comes back when there was one, a fresh node otherwise |
| SearchTree.InsertOrdered | goit-algo-hw-08/exercise1.py:12-15 | insertion keeps search-tree order |
| SearchTree.InsertKeys | goit-algo-hw-08/exercise1.py:12-15 | insertion adds exactly the inserted key |
| SearchTree.InsertPresent | goit-algo-hw-08/exercise1.py:16 | inserting a key already present leaves the tree unchanged |
| SearchTree.Build | goit-algo-hw-08/exercise1.py:26-30 | builds the tree of inserting the values one after another |
| SearchTree.BuiltKeys | goit-algo-hw-08/exercise1.py:26-30 | the built tree is ordered and holds exactly the values |
| SearchTree.Leftmost | goit-algo-hw-08/exercise1.py:18-24 | none exactly for the empty tree, otherwise a key of the tree |
| SearchTree.MinValue | goit-algo-hw-08/exercise1.py:18-24 | following left links returns the leftmost key, none for an empty tree |
| SearchTree.LeftmostIsLeast | goit-algo-hw-08/exercise1.py:21-24 | in an ordered tree the leftmost key is the smallest |
| SearchTree.BuiltMinimum | goit-algo-hw-08/exercise1.py:51 | for a non-empty list the answer is a value of the list no larger than any other |
| SearchTree.DemoMinimum | goit-algo-hw-08/exercise1.py:39-40 | the demonstration list `[5, 3, 7, 2, 4, 6, 8]` has minimum 2 |
| NumberParsing.Tokens | goit-algo-hw-08/exercise1.py:35-36 | the pieces are non-empty and contain no comma or whitespace |
| NumberParsing.ParseInt | goit-algo-hw-08/exercise1.py:36 | a successful conversion starts with a sign or a digit, and its sign follows the leading `-` |
| NumberParsing.ParseAll | goit-algo-hw-08/exercise1.py:36 | either every token converts, in order, or the error is the first token that does not |
| NumberParsing.UnitSeparatorExample | goit-algo-hw-08/exercise1.py:33-36 | Unicode whitespace such as the ideographic space and the unit separator splits pieces as `str.split` does |
| NumberParsing.ParseNumbers | goit-algo-hw-08/exercise1.py:32-36 | a blank line gives `[]`; otherwise one number per piece, or an error naming a piece that is not an integer |
| NumberParsing.BlankTokens | goit-algo-hw-08/exercise3.py:4-5 | a blank line has no pieces |
| NumberParsing.ParseJoin | goit-algo-hw-08/exercise3.py:3-6 | writing numbers out separated by ", " and parsing them back gives the same numbers |
| NumberParsing.ParseShow | goit-algo-hw-08/exercise3.py:6 | a number written in decimal converts back to itself |
| NumberParsing.SplitAfterReplace | goit-algo-fp/exercise1.py:141 | splitting at whitespace after commas became blanks gives the same pieces as splitting at commas and whitespace |
| NumberParsing.ParseValues | goit-algo-fp/exercise1.py:137-148 | the loop reads every line exactly as `ParseNumbers` does: `[]` for a blank line, an error at the first token that is not an integer |
| CableMerge.MinOf | goit-algo-hw-08/exercise3.py:16-17 | a pop returns a least entry of the heap |
| CableMerge.MinMergeCost | goit-algo-hw-08/exercise3.py:8-22 | `(0, [])` for no cables; otherwise a greedy run of `n - 1` steps down to one cable, and the total is the sum of the joined lengths |
| CableMerge.MergeAll | goit-algo-hw-08/exercise3.py:15-21 | the loop performs a greedy run from the heap until one cable is left, with `n - 1` steps and the total of their costs |
| CableMerge.PushStep | goit-algo-hw-08/exercise3.py:16-21 | one round extends the run by a valid step, removes one cable and adds the joined length to the cost |
| CableMerge.NextStep | goit-algo-hw-08/exercise3.py:16-18 | popping twice takes two entries `a <= b` of the heap, no larger than any entry left, and joins them into `a + b` |
| CableMerge.StepOrdered | goit-algo-hw-08/exercise3.py:16-18 | each step joins `a <= b`, both taken from the heap |
| CableMerge.RunSize | goit-algo-hw-08/exercise3.py:15-21 | each step leaves one cable fewer |
| CableMerge.RunKeepsTotal | goit-algo-hw-08/exercise3.py:16-21 | every run keeps the total length in the heap |
| CableMerge.LastCableIsSum | goit-algo-hw-08/exercise3.py:8-22 | the single cable left is as long as all input cables together |
| CableMerge.RunUnique | goit-algo-hw-08/exercise3.py:15-21 | the greedy steps are determined by the heap: two runs of the same length are equal |
| Palindrome.Filtered | goit-algo-hw-02/exercise2.py:12 | the filtered text is no longer than the input |
| Palindrome.IsPalindrome | goit-algo-hw-02/exercise2.py:10-19 | true exactly when the lower-cased alphanumeric characters read the same reversed |
| Palindrome.EndsMatchIffReversed | goit-algo-hw-02/exercise2.py:16-18 | comparing the two ends and recursing inward succeeds exactly when the text equals its reverse |
| Palindrome.EndsMatchIffMirrored | goit-algo-hw-02/exercise2.py:16-18 | matching ends all the way in is the same as every position up to the middle matching its mirror |
| Palindrome.FilteredAppend | goit-algo-hw-02/exercise2.py:12 | filtering works character by character |
| Palindrome.IgnoresOthers | goit-algo-hw-02/exercise2.py:3-5 | a non-alphanumeric character anywhere changes neither the filtered text nor the answer |
| Palindrome.IgnoresCase | goit-algo-hw-02/exercise2.py:3-5 | replacing a character by another with the same lower-case form does not change the filtered text |
| Palindrome.ShortIsPalindrome | goit-algo-hw-02/exercise2.py:16-19 | with at most one alphanumeric character the answer is true |
| Palindrome.NumberExample | goit-algo-hw-02/exercise2.py:29 | `"12321"` is a palindrome |
| Palindrome.SentenceExample | goit-algo-hw-02/exercise2.py:27 | `"Step on no pets"` is a palindrome |
| Palindrome.WordExample | goit-algo-hw-02/exercise2.py:28 | `"palindrome"` is not a palindrome |

## Left out

- I/O and drivers are not modelled: the interactive menus, printing, benchmarks, `gen_data`, `pick_patterns`, `read_text`, `Graph.__repr__`, and the module-level demo prints of the knapsack file.
- Floating point is not modelled.
  - Edge weights are naturals, and infinity is `None`.
  - The knapsack ratio `calories / cost` is compared exactly by cross-multiplication. Rounding of the float division, which could order near-equal ratios differently, is not modelled.
- `heapq` is modelled as a multiset with a pop of any least entry. The array layout and the tie-breaking on the vertex label of equal-distance tuples are not modelled; the proved properties hold for every tie-break.
- ShortestPaths.Dijkstra: weights are naturals, so negative edge weights are excluded. The source does not guard against them, and with them its answer is not a shortest distance.
- ShortestPaths.ReconstructPath: requires a ranking under which every parent precedes its child. `Dijkstra` returns one. On a cyclic parent map the source would loop forever.
- Keys and elements are integers.
  - The list sorts and the linked-list sort key map values to integers. The source accepts any comparable key and defaults to the identity.
  - Search-tree keys and cable lengths are integers.
- LinkedList.SinglyLinkedList.MergeSortedWith: requires the two lists to share no node. Merging a list with itself would link nodes into a cycle in the source.
- Palindrome.IsPalindrome: Unicode `str.isalnum` and `str.lower` are abstract parameters (`Folding`). The examples are proved for ASCII folding only. The Cyrillic example sentence is therefore not covered.
- NumberParsing.ParseInt accepts an optional sign and ASCII decimal digits.
  - Python's `int` also accepts underscores between digits, surrounding whitespace and non-ASCII digits.
- NumberParsing.ParseValues returns the offending token as the error. The source's message text is not modelled.
- CoinChange.MinCoins requires denominations that are not negative. A zero denomination is allowed and never chosen, as in the source. With a negative one the source's `dp[a-c]` reads past the end of the table (Python's negative indexing), which the model does not reproduce.
- CoinChange.GreedyCoins requires positive denominations. The source also runs with a zero denomination: it stops before reaching it once the amount is paid, and its `divmod` raises `ZeroDivisionError` when a positive remainder reaches it. A negative denomination gives negative counts in the source.
- CoinChange.Reconstruct: the source's `choice == -1` branch is not modelled. The proved table invariant shows that every reachable positive amount has a recorded coin, so the branch cannot be taken.
- CoinChange.GreedyNotFewer proves only that the optimum uses no more coins than the greedy answer. That greedy is optimal for the denominations 50, 25, 10, 5, 2, 1 is not proved.
- Coin-change answers are lists of `(denomination, count)` pairs.
  - Greedy pairs are in the dictionary's insertion order, largest first.
  - The dynamic-programming pairs are in increasing order of denomination, as `dict(sorted(...))` gives.
- Knapsack.GreedyAlgorithm requires no dish to cost zero. The source divides by the cost and fails there.
- Knapsack.DynamicProgramming requires a budget that is not negative and dishes of non-negative cost.
  - For a negative budget the source fails reading an empty table row.
  - With negative costs the source may read past the end of a row.
- Knapsack.RatioSort is stable by construction: dishes of equal ratio keep their dictionary order, as Python's `sorted(..., reverse=True)` does. That stability is not stated as a lemma.
- Knapsack dishes are a sequence in dictionary order. Distinct names are not required.
- CableMerge.MinMergeCost does not prove that the total is the least possible cost (Huffman optimality). It proves that the run is the greedy one, that the run is unique, and that it preserves the total.
