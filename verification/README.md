# Coursera algorithms assignments, modelled in Dafny

This project models the core of a set of solutions to the Princeton
"Algorithms" assignments (Java, on top of the algs4 library). Each assignment
is its own module, and the library types it uses are reduced to abstract
interfaces:

- **Seam carver** (`Matrix`, `SeamEnergy`, `SeamFinder`, `SeamRemoval`, `SeamCarver`).
  - The energy matrix of a picture: a border rule, then a dual-gradient energy.
  - The transpose trick, which lets one shortest-path search over the layered DAG find both vertical and horizontal seams.
  - Validated seam removal, and the incremental repair of the energy matrix after a removal.
- **8-puzzle board** (`JavaInt`, `EightPuzzle`).
  - The Hamming and Manhattan metrics, and their incremental updates. The Manhattan cache is a 32-bit `int` that wraps, as the source's `+=` does.
  - The constructor's `new short[n * n]`, with its exceptions when `n * n` wraps.
  - `twin`, `neighbors`, `isGoal` and `equals`.
- **Burrows–Wheeler helpers.**
  - `MoveToFront`: the move-to-front encoder and decoder.
  - `CircularSuffixArray`: the 3-way radix quicksort of the rotations of a string, taken as Java sees it, a sequence of 16-bit UTF-16 code units.
- **Trie set and Boggle solver.**
  - `TrieSet`: an A–Z trie with per-node subtree counts.
  - `Boggle`: the depth-first word search over a board, and the score table.
- **Containers.**
  - `LinkedDeque`: the doubly linked deque over an explicit heap of nodes.
  - `RandomizedQueue`: the resizing-array randomized queue.
- **Percolation** (`Percolation`): the grid of sites with TOPPED/BOTTOMED flags kept on the representatives of a union-find partition.
- **2-d tree** (`KdTree`): insertion with rectangles, `contains`, `range` and `nearest`. An insert whose new node would get a rectangle with reversed bounds fails, as `RectHV`'s constructor throws.
- **WordNet** (`SapReach`, `SapSearch`, `BreadthFirstSap`, `Outcast`).
  - The two-sided breadth-first shortest ancestral path.
  - The outcast arg-max.
- **Baseball elimination** (`BaseballElimination`).
  - Trivial elimination.
  - The flow network's index and capacity arithmetic, and `FlowEdge`'s exception on a negative capacity.
  - Caching of the certificates.
- **Collinear points** (`CollinearPoints`, `BruteCollinear`, `FastCollinear`).
  - Validation.
  - The brute-force quadruple loops.
  - The sort-by-slope scan with its `minMax` and `collinearComponent` helpers.
- **Shared helpers** (`Wrappers`, `JavaInt`, `Sequences`): results and options, Java's 32-bit and 16-bit integer arithmetic, and the exchange of two entries of a sequence.

Library calls are handled as follows:

| Library call | How the model treats it |
|---|---|
| `Math.sqrt` | a parameter `root` |
| `FordFulkerson.inCut` | a parameter `cut` |
| `Arrays.sort` by slope order | a parameter `sortBySlope` that permutes its input |
| `WordNet.distance` | a parameter `dist` |
| `Point.compareTo` and `Point.slopeTo` | parameters `cmp` and `slope` |
| `StdRandom` | a nondeterministic choice |
| `WeightedQuickUnionUF` | an abstract partition, whose choice of root is left open |

Objects are values: a mutating method returns the new state. Exceptions are the `Err` case of a `Result`, and a Java `null` is `None`.

## Model

| member | source | states |
|---|---|---|
| Matrix.Transpose | seam/SeamCarver.java:63-72 | the transpose has the column count as its row count, and entry `[j][i]` is entry `[i][j]` of the original |
| Matrix.TransposeTwice | seam/SeamCarver.java:63-72 | transposing twice gives back any matrix with at least one column |
| SeamEnergy.EnergyMatrix | seam/SeamCarver.java:97-107 | the energy matrix has the picture's height and width, swapped when it is stored transposed |
| SeamEnergy.BorderRule | seam/SeamCarver.java:101-102 | a frame pixel has energy exactly 1000, and an inner pixel has the root of its squared gradient |
| SeamEnergy.PixelEnergyTranspose | seam/SeamCarver.java:41-61 | the energy of a pixel does not depend on the orientation: the x and y gradients swap under transposition |
| SeamEnergy.EnergyMatrixOriented | seam/SeamCarver.java:97-107 | a stored matrix in either orientation is the untransposed energy matrix of the picture as the seam finder sees it |
| SeamEnergy.TransposeEnergyMatrix | seam/SeamCarver.java:212-226 | transposing the stored matrix is the same as recomputing it in the other orientation, which is why the flag and the matrix stay in step |
| SeamEnergy.InitialEnergy | seam/SeamCarver.java:12-22 | the constructor's double loop fills every cell with the energy of its pixel |
| SeamFinder.RelaxEdge | seam/SeamCarver.java:129-136 | one relaxation replaces the target's distance and edge only for a strictly smaller candidate |
| SeamFinder.ScanColumn | seam/SeamCarver.java:143-149 | scanning a column relaxes the same column, then the left one, then the right one, and advances exactly those targets |
| SeamFinder.RelaxPass | seam/SeamCarver.java:143-149 | after the column loop every target of the next row has seen all its sources |
| SeamFinder.FinishedRow | seam/SeamCarver.java:138-151 | once a row is finished, the next row holds the leftmost-minimum distances and predecessors |
| SeamFinder.RelaxedIsLeftmostMin | seam/SeamCarver.java:129-136 | the relaxed distance is the least over the adjacent sources, reached from the leftmost one that attains it |
| SeamFinder.PredIsLeftmostMin | seam/SeamCarver.java:144-148 | a predecessor is an adjacent column of the previous row holding the least distance, and the leftmost such one |
| SeamFinder.DagSP | seam/SeamCarver.java:138-151 | after dagSP, distTo and edgeTo hold the reference distances and predecessors in every row after the first |
| SeamFinder.DistIsLowerBound | seam/SeamCarver.java:129-168 | no connected path from row 0 to a cell costs less than that cell's distance |
| SeamFinder.TraceFromAttains | seam/SeamCarver.java:91-92 | the path traced back through the predecessors reaches a cell at exactly the cell's distance |
| SeamFinder.MinIndex | seam/SeamCarver.java:82-87 | the first loop of traceSeam, over the array of the last row, picks the same column as the leftmost-minimum scan |
| SeamFinder.ScanMinIsLeftmostMin | seam/SeamCarver.java:83 | of several equal minima, the scan keeps the first |
| SeamFinder.FollowEdges | seam/SeamCarver.java:91-92 | following the edgeTo array back from the chosen end column yields the path traced through the predecessors |
| SeamFinder.TraceSeam | seam/SeamCarver.java:74-95 | traceSeam returns the path traced back from the leftmost minimum of the last row |
| SeamFinder.FindSeam | seam/SeamCarver.java:153-168 | findSeam returns a seam of minimum total energy, with the deterministic leftmost tie-break |
| SeamFinder.SeamIsOptimal | seam/SeamCarver.java:153-168 | no seam of the matrix has a smaller total energy than the one returned |
| SeamFinder.SeamEndsAtLeftmostMin | seam/SeamCarver.java:82-92 | the seam ends at the leftmost minimal column, and every earlier entry is the leftmost minimal predecessor |
| SeamRemoval.CheckFrom | seam/SeamCarver.java:120-126 | the validation loop can only report an entry out of range or a jump, never a wrong length |
| SeamRemoval.CheckFromAccepts | seam/SeamCarver.java:120-126 | the loop accepts exactly the entries that are in range and adjacent to their predecessors |
| SeamRemoval.ValidateSeamAccepts | seam/SeamCarver.java:109-127 | a seam is accepted exactly when it has the right length, its entries are in range and it never jumps by more than one |
| SeamRemoval.CheckFromReportsFirst | seam/SeamCarver.java:109-127 | a wrong length is reported first, then the first bad entry decides between out of range and too big a jump |
| SeamRemoval.RemoveAt | seam/SeamCarver.java:237-242 | removing one entry keeps the entries on its left and shifts those on its right one place to the left |
| SeamRemoval.RemoveAtInverse | seam/SeamCarver.java:237-242 | putting the removed entry back restores the row |
| SeamRemoval.RemoveHorizontalIsTransposed | seam/SeamCarver.java:228-250 | horizontal removal is vertical removal on the transposed picture |
| SeamRemoval.RemovalOriented | seam/SeamCarver.java:228-274 | in either orientation, removal is vertical removal on the picture as the energy matrix sees it |
| SeamRemoval.RemoveVerticalLoop | seam/SeamCarver.java:261-266 | the copy loop writes every pixel except the seam's to the next free column of its row |
| SeamRemoval.RemoveHorizontalLoop | seam/SeamCarver.java:237-242 | the copy loop writes every pixel except the seam's to the next free row of its column |
| SeamRemoval.FixEnergy | seam/SeamCarver.java:170-191 | fixEnergy shifts each row over its seam entry and recomputes only the columns beside the removed pixel |
| SeamRemoval.ShiftedEnergy | seam/SeamCarver.java:177-182 | away from the removed pixel a shifted pixel keeps its energy, because consecutive seam entries differ by at most one |
| SeamRemoval.FixEnergyRestores | seam/SeamCarver.java:170-191 | after fixEnergy every entry equals the energy of the narrowed picture recomputed from scratch |
| SeamCarver.New | seam/SeamCarver.java:12-22 | null is rejected; otherwise the carver holds the picture and its untransposed energy |
| SeamCarver.Width | seam/SeamCarver.java:197-199 | the width is positive and the columns `energy` accepts are exactly those below it |
| SeamCarver.Height | seam/SeamCarver.java:201-203 | the height is positive and the rows `energy` accepts are exactly those below it |
| SeamCarver.Energy | seam/SeamCarver.java:205-210 | exactly the indices outside the picture are rejected |
| SeamCarver.EnergyIsPixelEnergy | seam/SeamCarver.java:205-210 | the value read is the energy of the pixel, and exactly 1000 on the border |
| SeamCarver.FindVerticalSeam | seam/SeamCarver.java:220-226 | a minimum-energy top-to-bottom seam with one column per picture row; the matrix ends untransposed |
| SeamCarver.FindHorizontalSeam | seam/SeamCarver.java:212-218 | a minimum-energy left-to-right seam with one row per picture column; the matrix ends transposed |
| SeamCarver.RejectionIff | seam/SeamCarver.java:252-256 | a removal is rejected exactly for a null seam, an invalid seam, or a dimension of 1 |
| SeamCarver.RemoveVerticalSeam | seam/SeamCarver.java:252-274 | every row loses the pixel at its seam entry, the width drops by one, and the energy invariant is restored |
| SeamCarver.RemoveHorizontalSeam | seam/SeamCarver.java:228-250 | every column loses the pixel at its seam entry, the height drops by one, and the energy invariant is restored |
| SeamCarver.BlackPictureSeam | seam/SeamCarver.java:129-151 | an all-black 3-by-3 picture yields the vertical seam [0, 1, 0] |
| JavaInt.Rem | 8Puzzle/src/Board.java:76-86 | Java's `%` with a positive divisor takes the sign of the dividend |
| JavaInt.QuotRem | 8Puzzle/src/Board.java:76-86 | Java's quotient and remainder recompose the dividend |
| JavaInt.Short | 8Puzzle/src/Board.java:34 | the short cast keeps the low 16 bits as a two's-complement value |
| JavaInt.ShortInRange | 8Puzzle/src/Board.java:34 | a value that fits in a short survives the cast |
| JavaInt.IntSquare | Collinearity/src/BruteCollinearPoints.java:11-11 | the `int` product `n * n` is exact up to 46340 points, never exceeds the true square, and is negative for 46341 |
| JavaInt.Int | wordnet/Outcast.java:17-17 | an `int` result lies in `[-2^31, 2^31)` and differs from the exact value by a multiple of 2^32 |
| JavaInt.IntCongruent | 8Puzzle/src/Board.java:68-68 | values congruent modulo 2^32 wrap to the same `int` |
| JavaInt.IntAdd | 8Puzzle/src/Board.java:68-68 | wrapping a running sum after each `+=` ends at the wrapped exact sum |
| JavaInt.IntAbs | 8Puzzle/src/Board.java:68-68 | `Math.abs` of an `int` difference, added in `int`, agrees with the exact distance modulo 2^32 whenever the exact difference lies within 2^31 of 0 |
| EightPuzzle.New | 8Puzzle/src/Board.java:22-43 | null is rejected; an `n * n` that wraps negative is a negative array size, and one that wraps to too few slots is an index out of bounds; otherwise the board has at most 46340 rows, the tiles are copied row-major as shorts, the blank's index is recorded, the Hamming cache is exact and the Manhattan cache is the exact metric wrapped to 32 bits |
| EightPuzzle.SmallDimension | 8Puzzle/src/Board.java:29-29 | a board with fewer than 2^31 cells has at most 46340 rows |
| EightPuzzle.CopyBlocks | 8Puzzle/src/Board.java:31-38 | the copy loop stores the short-cast tiles row-major and finds the last blank |
| EightPuzzle.CalculateHamming | 8Puzzle/src/Board.java:45-56 | the count of non-blank tiles that are not at their goal position |
| EightPuzzle.CalculateManhattan | 8Puzzle/src/Board.java:58-74 | the sum, over misplaced non-blank tiles, of the row and column distances to their goal cells, wrapped to 32 bits as the source's `int` `+=` does |
| EightPuzzle.ManhattanRow | 8Puzzle/src/Board.java:62-70 | the inner loop over one row adds that row's distances to the wrapped running sum |
| EightPuzzle.ManhattanCell | 8Puzzle/src/Board.java:63-69 | one step of the inner loop, computed with Java's `/`, `%`, `Math.abs` and `int` `+=`, adds the cell's exact distance modulo 2^32 |
| EightPuzzle.ManhattanStep | 8Puzzle/src/Board.java:68-68 | `result += Math.abs(x) + Math.abs(y)` in `int` gives the wrapped exact sum when both differences lie within 2^31 of 0 |
| EightPuzzle.DifferenceBounds | 8Puzzle/src/Board.java:66-68 | on a board of at most 46340 rows, the row and column differences inside `Math.abs` lie within 2^31 of 0 |
| EightPuzzle.WrappedManhattan | 8Puzzle/src/Board.java:58-74 | the 2-by-2 board `[[0, MAX], [MAX, MAX]]` gets the Manhattan cache -1073741827: the exact metric 3221225469, less 2^32 |
| EightPuzzle.HammingFits | 8Puzzle/src/Board.java:45-56 | the Hamming cache lies between 0 and the number of cells, so unlike the Manhattan cache it never wraps |
| EightPuzzle.TermIsDistance | 8Puzzle/src/Board.java:65-68 | a tile's Manhattan term is its grid distance to its goal cell |
| EightPuzzle.FactorIsDistanceChange | 8Puzzle/src/Board.java:76-86 | distanceFactor, with Java's `/` and `%`, is the change in a tile's distance to its goal |
| EightPuzzle.UpdateHammingIsHamming | 8Puzzle/src/Board.java:94-109 | the incremental Hamming update equals the metric recomputed on the swapped tiles |
| EightPuzzle.UpdateManhattanIsManhattan | 8Puzzle/src/Board.java:111-120 | the incremental Manhattan update equals the metric recomputed on the swapped tiles, both wrapped to 32 bits |
| EightPuzzle.SwapFactors | 8Puzzle/src/Board.java:76-86 | swapping two positions changes the exact Manhattan metric by the distance factors of the two tiles that moved |
| EightPuzzle.UpdateAddsFactors | 8Puzzle/src/Board.java:111-120 | the two `int` `+=` of updateManhattan add both factors to the exact metric, then wrap |
| EightPuzzle.UpdateManhattanWraps | 8Puzzle/src/Board.java:111-120 | a cache of 2^31 - 1 plus a factor of 2 wraps to -2^31 + 1 |
| EightPuzzle.Neighbor | 8Puzzle/src/Board.java:122-128 | getNeighbor swaps the blank with a tile and moves the blank index there; the Hamming cache stays exact and the Manhattan cache stays the wrapped metric |
| EightPuzzle.Neighbors | 8Puzzle/src/Board.java:174-189 | two to four boards, each swapping the blank with an adjacent tile; they are listed right, left, down, up, because `LinkedBag.add` prepends |
| EightPuzzle.NeighborsComplete | 8Puzzle/src/Board.java:174-189 | every cell next to the blank is the blank of some neighbour |
| EightPuzzle.Twin | 8Puzzle/src/Board.java:146-164 | the board with its first two non-blank tiles exchanged and the blank in place; both caches stay consistent as for getNeighbor |
| EightPuzzle.GoalIffSolved | 8Puzzle/src/Board.java:142-144 | a board is the goal exactly when every tile is in place |
| EightPuzzle.EqualBoardsAgree | 8Puzzle/src/Board.java:166-172 | equality looks only at the tiles, yet equal boards agree on the dimension and on both metrics |
| MoveToFront.IndexOf | burrows/MoveToFront.java:24-27 | the position of a byte in the list, and the only one when the list has no repetitions |
| MoveToFront.MoveToFront | burrows/MoveToFront.java:24-29 | after a byte is processed it is at the front, the bytes that were ahead of it move back one place, and the rest stay |
| MoveToFront.Shift | burrows/MoveToFront.java:42-43 | decode's arraycopy moves the first `i` positions back one place and puts the byte from position `i` in front |
| MoveToFront.ShiftIsMoveToFront | burrows/MoveToFront.java:24-43 | decoding a position moves the same byte to the front as encoding the byte found there |
| MoveToFront.Encode | burrows/MoveToFront.java:13-33 | one code per input byte |
| MoveToFront.Decode | burrows/MoveToFront.java:35-46 | one byte per code read |
| MoveToFront.DecodeEncode | burrows/MoveToFront.java:13-46 | decoding undoes encoding, for every byte sequence |
| MoveToFront.EncodeDecode | burrows/MoveToFront.java:13-46 | encoding undoes decoding, for every byte sequence |
| MoveToFront.PromotedInverse | burrows/MoveToFront.java:16-30 | `ctoi` and `itoc` stay inverse permutations after each promotion |
| MoveToFront.EncodeLoop | burrows/MoveToFront.java:13-33 | the loop over the two inverse arrays writes what the list-based encoder does |
| MoveToFront.DecodeLoop | burrows/MoveToFront.java:35-46 | the arraycopy loop writes what the list-based decoder does |
| CircularSuffixArray.CharAtRotation | burrows/CircularSuffixArray.java:73-75 | charAt reads the rotation's character at the given depth, taken modulo the length |
| CircularSuffixArray.LessIsLex | burrows/CircularSuffixArray.java:77-85 | from depth 0, less is the lexicographic order of the two rotations |
| CircularSuffixArray.LessEqualRotations | burrows/CircularSuffixArray.java:77-85 | less is false for rotations that are equal strings |
| CircularSuffixArray.NotLessTransitive | burrows/CircularSuffixArray.java:77-85 | not-less is transitive, so less is a strict weak order |
| Sequences.Swap | burrows/CircularSuffixArray.java:28-32 | the two entries trade places and every other entry stays where it is |
| CircularSuffixArray.Insertion | burrows/CircularSuffixArray.java:66-71 | insertion sort rearranges the range into sorted order and leaves the rest alone |
| CircularSuffixArray.Partition | burrows/CircularSuffixArray.java:54-59 | after the 3-way partition the characters at depth `d` are below, equal to and above the pivot, in three bands |
| CircularSuffixArray.JoinSorted | burrows/CircularSuffixArray.java:61-63 | three sorted bands split by the character at depth `d` form one sorted range |
| CircularSuffixArray.Sort | burrows/CircularSuffixArray.java:44-64 | with no bound on the depth, sorting a long run of one repeated character never returns |
| CircularSuffixArray.SortBounded | burrows/CircularSuffixArray.java:44-64 | the depth-bounded sort always returns a sorted rearrangement of the range |
| CircularSuffixArray.New | burrows/CircularSuffixArray.java:19-26 | null is rejected; otherwise the indices are a permutation of the string's UTF-16 code-unit positions, with the rotations in `String.compareTo` order of their code units |
| CircularSuffixArray.SortedRotations | burrows/CircularSuffixArray.java:44-85 | a range sorted by less lists its rotations in non-decreasing string order |
| CircularSuffixArray.Length | burrows/CircularSuffixArray.java:87-89 | the length of the string |
| CircularSuffixArray.Index | burrows/CircularSuffixArray.java:91-94 | an index outside the string is rejected; otherwise the start of the `i`-th smallest rotation |
| TrieSet.Next | boggle/TrieSet.java:20-25 | a character that is not upper case is an illegal argument, an upper-case one outside A–Z is an index out of bounds, and otherwise the child stores exactly the strings that follow that letter |
| TrieSet.IsPrefix | boggle/TrieSet.java:31-33 | a node is a prefix exactly when its subtree stores some string |
| TrieSet.Add | boggle/TrieSet.java:44-62 | add keeps every node's size equal to the number of strings below it |
| TrieSet.AddHas | boggle/TrieSet.java:44-62 | after add, exactly the old strings and the new one are stored |
| TrieSet.AddSize | boggle/TrieSet.java:51 | add counts a new string once and a present one not at all |
| TrieSet.AddPresent | boggle/TrieSet.java:44-62 | adding a stored string leaves the trie unchanged |
| TrieSet.Delete | boggle/TrieSet.java:80-98 | delete keeps every size exact and never returns a node with an empty subtree |
| TrieSet.DeleteHas | boggle/TrieSet.java:80-98 | after delete, exactly the old strings other than the deleted one are stored |
| TrieSet.DeleteSize | boggle/TrieSet.java:87-96 | delete uncounts a stored string once and an absent one not at all |
| TrieSet.DeleteAbsent | boggle/TrieSet.java:80-98 | deleting an absent string changes nothing |
| TrieSet.DeletePruned | boggle/TrieSet.java:97 | delete leaves no node whose subtree is empty |
| TrieSet.Contains | boggle/TrieSet.java:72-78 | contains holds exactly for the stored strings |
| TrieSet.SetSize | boggle/TrieSet.java:64-66 | size is the number of stored strings |
| TrieSet.IsEmpty | boggle/TrieSet.java:68-70 | isEmpty holds exactly when no string is stored |
| TrieSet.CollectSize | boggle/TrieSet.java:107-115 | every node's size is the number of strings collected below it |
| TrieSet.HasCollect | boggle/TrieSet.java:100-115 | a string is stored exactly when the iterator yields it |
| TrieSet.CollectIncreasing | boggle/TrieSet.java:100-115 | the iterator yields the strings once each, in strictly increasing A–Z order |
| TrieSet.WalkHas | boggle/TrieSet.java:72-78 | a string is stored exactly when following its links ends at a flagged node |
| Boggle.ReadCell | boggle/BoggleSolver.java:69-74 | reading a cell follows the links of what it spells, "QU" for a `Q`, and skips exactly when a link is missing |
| Boggle.Dfs | boggle/BoggleSolver.java:54-83 | every word dfs adds is a dictionary word of at least three letters spelled by a simple path of adjacent cells; the marks are restored on return |
| Boggle.Visit | boggle/BoggleSolver.java:61-80 | an in-bounds neighbour off the stack is read and searched, and the word builder is cut back afterwards |
| Boggle.GetAllValidWords | boggle/BoggleSolver.java:25-52 | every reported word is a dictionary word of at least three letters that a path of the board spells, with no duplicates |
| Boggle.BuildHas | boggle/BoggleSolver.java:16-19 | the dictionary trie holds exactly the given words |
| Boggle.Points | boggle/BoggleSolver.java:87-97 | a word scores nothing exactly when it has fewer than three letters |
| Boggle.PointsMonotone | boggle/BoggleSolver.java:87-97 | a longer word never scores less |
| Boggle.ScoreOf | boggle/BoggleSolver.java:85-98 | a word outside the dictionary scores 0; any other word scores its points |
| LinkedDeque.Empty | Permutation/src/Deque.java:51-55 | the new deque holds nothing |
| LinkedDeque.AddFirst | Permutation/src/Deque.java:65-74 | null is rejected and nothing changes; otherwise the contents become the item followed by the old contents |
| LinkedDeque.AddLast | Permutation/src/Deque.java:76-85 | null is rejected and nothing changes; otherwise the contents become the old contents followed by the item |
| LinkedDeque.RemoveFirst | Permutation/src/Deque.java:87-97 | an empty deque fails; otherwise the first item is returned and the rest remains, with the links consistent |
| LinkedDeque.RemoveLast | Permutation/src/Deque.java:99-109 | an empty deque fails; otherwise the last item is returned and the rest remains, with the links consistent |
| LinkedDeque.Size | Permutation/src/Deque.java:61-63 | the number of items |
| LinkedDeque.IsEmpty | Permutation/src/Deque.java:57-59 | isEmpty holds exactly when there are no items |
| LinkedDeque.Next | Permutation/src/Deque.java:40-48 | next yields the current item and moves on, and fails past the end |
| LinkedDeque.Iterate | Permutation/src/Deque.java:112-114 | a for-each loop yields the items first to last |
| RandomizedQueue.Empty | Permutation/src/RandomizedQueue.java:43-46 | a new queue has capacity 2 and holds nothing |
| RandomizedQueue.Size | Permutation/src/RandomizedQueue.java:52-54 | the number of items held, which never exceeds the capacity of the array |
| RandomizedQueue.IsEmpty | Permutation/src/RandomizedQueue.java:48-50 | isEmpty holds exactly when no item is held |
| RandomizedQueue.Resize | Permutation/src/RandomizedQueue.java:56-62 | resize keeps the items and nulls the other slots |
| RandomizedQueue.Enqueue | Permutation/src/RandomizedQueue.java:64-71 | null is rejected; otherwise the item multiset gains the item, and the capacity doubles only when full |
| RandomizedQueue.Take | Permutation/src/RandomizedQueue.java:77-83 | the drawn item is returned, the last item fills its slot, the slots from the size on are null, and a quarter-full array halves |
| RandomizedQueue.Dequeue | Permutation/src/RandomizedQueue.java:73-84 | an empty queue fails; otherwise a held item is returned and exactly one copy of it removed |
| RandomizedQueue.Sample | Permutation/src/RandomizedQueue.java:86-91 | an empty queue fails; otherwise a held item is returned and the queue is unchanged |
| RandomizedQueue.Shuffle | Permutation/src/RandomizedQueue.java:97 | the shuffle keeps the multiset of items |
| RandomizedQueue.Iterator | Permutation/src/RandomizedQueue.java:94-99 | the iterator holds a permutation of a snapshot of the items |
| RandomizedQueue.Next | Permutation/src/RandomizedQueue.java:31-40 | next fails past the end and when the size has changed; otherwise it yields the next item |
| RandomizedQueue.Iterate | Permutation/src/RandomizedQueue.java:12-41 | a loop over an unmodified queue yields every item as often as it is held |
| Percolation.New | Percolation/src/Percolation.java:18-32 | `n <= 0` is rejected; otherwise every site is closed and alone in its class, and only the top and bottom rows carry flags |
| Percolation.InitialFlags | Percolation/src/Percolation.java:24-26 | a fresh site is TOPPED exactly in the top row and BOTTOMED exactly in the bottom row |
| Percolation.IsOpen | Percolation/src/Percolation.java:97-101 | a site outside the grid is rejected; otherwise whether it is open |
| Percolation.IsFull | Percolation/src/Percolation.java:103-108 | a site outside the grid is rejected; otherwise whether an open path joins it to the top row |
| Percolation.FullMeans | Percolation/src/Percolation.java:103-108 | the TOPPED bit of an open site's representative is set exactly when the site's component reaches the top row |
| Percolation.NumberOfOpenSites | Percolation/src/Percolation.java:110-112 | the number of distinct open sites |
| Percolation.Percolates | Percolation/src/Percolation.java:114-116 | whether an open path joins some top-row site to the bottom row |
| Percolation.Neighbours | Percolation/src/Percolation.java:50-53 | the four sites open looks at are exactly the grid's adjacent sites; left and right do not wrap across rows |
| Percolation.Open | Percolation/src/Percolation.java:43-95 | a site outside the grid is rejected; otherwise exactly that site becomes open, an open site changes nothing, and percolation is never lost |
| Percolation.WriteBack | Percolation/src/Percolation.java:87-93 | the system percolates after open exactly when it did before or the new class reaches both rows |
| Percolation.JoinNeighbours | Percolation/src/Percolation.java:58-85 | after the four checks every open neighbour is in the new site's class |
| Percolation.UnionSpans | Percolation/src/Percolation.java:58-85 | a union makes the grid span exactly when it did before or the union joins the top to the bottom |
| Percolation.SameClassConnected | Percolation/src/Percolation.java:58-85 | sites of one class are joined by an open path |
| Percolation.ConnectedSameClass | Percolation/src/Percolation.java:58-85 | sites joined by an open path are in one class |
| KdTree.Empty | kdtree/KdTree.java:11-12 | the new tree holds no point |
| KdTree.Size | kdtree/KdTree.java:154-156 | the number of stored points |
| KdTree.IsEmpty | kdtree/KdTree.java:150-152 | isEmpty holds exactly when no point is stored |
| KdTree.InsertAt | kdtree/KdTree.java:116-148 | the recursive insert fails exactly when the new node's rectangle would have reversed bounds; otherwise it adds exactly the point, reports whether it was new, and gives a new child its parent's rectangle cut at the split |
| KdTree.InsertFits | kdtree/KdTree.java:129-144 | in a framed, ordered subtree whose points and the new point lie in its rectangle, every cut on the search path keeps its bounds in order, so the insert cannot throw |
| KdTree.InsertOrdered | kdtree/KdTree.java:123-128 | insert keeps the split order: strictly less on the left, the rest on the right, x and y alternating |
| KdTree.InsertFramed | kdtree/KdTree.java:129-144 | insert keeps every node's rectangle its parent's rectangle cut at the split |
| KdTree.Insert | kdtree/KdTree.java:158-163 | null is rejected; a point whose new node would get reversed bounds makes `RectHV` throw; otherwise the point is stored, the root gets the unit square, and the size grows exactly for a new point |
| KdTree.InsertInUnit | kdtree/KdTree.java:116-163 | a tree of points in the unit square accepts every point of the unit square, and its points stay there |
| KdTree.OutsideUnitThrows | kdtree/KdTree.java:137-144 | storing (2, 0.5) and then (3, 0.5) throws, because the second point's cut `[2, 1] x [0, 1]` has reversed x bounds |
| KdTree.Contains | kdtree/KdTree.java:165-183 | null is rejected; otherwise whether the point is stored |
| KdTree.RangeInto | kdtree/KdTree.java:60-66 | the recursive range search adds only stored points that lie in the query rectangle |
| KdTree.Range | kdtree/KdTree.java:189-194 | null is rejected; otherwise stored points that lie in the query rectangle |
| KdTree.RangeExact | kdtree/KdTree.java:60-66 | with the points in the unit square, range returns every stored point of the query and no other |
| KdTree.NearestFrom | kdtree/KdTree.java:68-114 | the recursive search returns a stored point strictly closer than the bound, or none, and always one under an infinite bound |
| KdTree.Nearest | kdtree/KdTree.java:196-200 | null is rejected and an empty tree gives null; otherwise a stored point |
| KdTree.RectDistLe | kdtree/KdTree.java:78-79 | the distance to a rectangle is at most the distance to any point inside it |
| KdTree.NearestIsNearest | kdtree/KdTree.java:68-114 | with the points in the unit square, nearest returns a stored point no farther from the query than any other |
| SapReach.DistLeast | wordnet/BreadthFirstSAP.java:67-73 | a shortest distance is at most the length of any path |
| SapReach.ReachInGraph | wordnet/BreadthFirstSAP.java:67-73 | only vertices of the graph are reached from sources in the graph |
| SapSearch.Start | wordnet/BreadthFirstSAP.java:115-125 | the sources are queued and marked at distance 0 over a cleared marked set |
| SapSearch.Scan | wordnet/BreadthFirstSAP.java:67-73 | every unmarked successor is marked, given distance one more, and queued |
| SapSearch.Expand | wordnet/BreadthFirstSAP.java:67-73 | a dequeue and its scan keep the breadth-first invariant |
| SapSearch.MarkedBound | wordnet/BreadthFirstSAP.java:68-72 | a side never marks more vertices than the graph has, so each vertex is queued at most once |
| SapSearch.Finished | wordnet/BreadthFirstSAP.java:54-95 | a finished side marks exactly the reachable vertices, each at its shortest distance |
| BreadthFirstSap.Create | wordnet/BreadthFirstSAP.java:17-24 | the graph is copied, both distance arrays are zero, both marked sets are empty and no path is known |
| BreadthFirstSap.ValidateSources | wordnet/BreadthFirstSAP.java:36-52 | null and null items are rejected, each item is checked as a vertex in order, and an empty iterable is accepted |
| BreadthFirstSap.Step | wordnet/BreadthFirstSAP.java:56-74 | one side's step keeps its breadth-first invariant and the best-so-far invariant, and uses up one unit of work |
| BreadthFirstSap.BfsLoop | wordnet/BreadthFirstSAP.java:54-96 | the loop ends with both queues empty, each side's breadth-first invariant kept, and the best-so-far invariant kept |
| BreadthFirstSap.Search | wordnet/BreadthFirstSAP.java:98-128 | the seeded search ends with the shortest ancestral path of the two source sets |
| BreadthFirstSap.ExecutePair | wordnet/BreadthFirstSAP.java:134-143 | an out-of-range vertex is rejected, `v` first; otherwise the shortest ancestral path of the two vertices |
| BreadthFirstSap.ExecuteSets | wordnet/BreadthFirstSAP.java:145-154 | invalid iterables are rejected, `v` first; otherwise the shortest ancestral path of the two sets |
| BreadthFirstSap.Reported | wordnet/BreadthFirstSAP.java:130-162 | length and ancestor are -1 exactly when no vertex is reachable from both sides; otherwise a common vertex and the least total distance |
| Outcast.FindOutcast | wordnet/Outcast.java:11-26 | null when no score beats MIN_VALUE, as for no nouns; otherwise a noun of greatest score, the earliest among equals |
| Outcast.ScoreExact | wordnet/Outcast.java:15-23 | without overflow, every score is the exact sum, so a non-empty list always has an outcast |
| BaseballElimination.Create | baseball/BaseballElimination.java:23-39 | every team is indexed by name, and nothing is computed or cached yet |
| BaseballElimination.TeamId | baseball/BaseballElimination.java:41-47 | null and unknown names are rejected; otherwise the team's index |
| BaseballElimination.NumberOfTeams | baseball/BaseballElimination.java:123-125 | the number of teams is the length of every per-team array and bounds every index in the name table |
| BaseballElimination.Wins | baseball/BaseballElimination.java:131-134 | null and unknown names are rejected as by `validateTeamName`; otherwise the wins of the team of that name |
| BaseballElimination.Losses | baseball/BaseballElimination.java:136-139 | null and unknown names are rejected as by `validateTeamName`; otherwise the losses of the team of that name |
| BaseballElimination.Remaining | baseball/BaseballElimination.java:141-144 | null and unknown names are rejected as by `validateTeamName`; otherwise the games the team of that name has left |
| BaseballElimination.Against | baseball/BaseballElimination.java:146-150 | the first name is checked before the second; otherwise the games left between the two |
| BaseballElimination.TriviallyEliminate | baseball/BaseballElimination.java:63-75 | the first other team that has already won more than `id` can reach, or `id` when there is none, where the reach is the Java `int` sum of wins and games left |
| BaseballElimination.WrappedReach | baseball/BaseballElimination.java:63-75 | a team with `Integer.MAX_VALUE` wins and one game left has a wrapped negative reach, so any other team, even one without a win, trivially eliminates it |
| BaseballElimination.CompressInverse | baseball/BaseballElimination.java:87-115 | compression and decompression are inverse bijections between the other teams and the team vertices |
| BaseballElimination.GamesTotal | baseball/BaseballElimination.java:79-93 | the pair loop makes `(n-1)(n-2)/2` game vertices, filling the range between the team vertices and the source |
| BaseballElimination.GameVertices | baseball/BaseballElimination.java:82-94 | game vertices lie in `[n-1, s)`, and distinct pairs get distinct game vertices |
| BaseballElimination.BuildNetwork | baseball/BaseballElimination.java:77-104 | `FlowEdge` throws on a negative capacity exactly when some games-left entry between two other teams, or some wrapped sink capacity, is negative; otherwise one game vertex per pair of other teams, with infinite edges to both teams and the games left from the source, and each team feeds the sink with what `id` can still reach minus its wins, all capacities non-negative |
| BaseballElimination.SinkCapacityNonNegative | baseball/BaseballElimination.java:96-100 | with no trivial eliminator and wins in `[0, 2^31)`, the sink capacity `possible - wins[i]` neither wraps nor goes negative |
| BaseballElimination.CapacitiesNonNegative | baseball/BaseballElimination.java:77-104 | standings whose wins and games left are non-negative `int`s, with no trivial eliminator, build a network with no negative capacity, so `FlowEdge` never throws |
| BaseballElimination.WrappedSinkCapacity | baseball/BaseballElimination.java:96-100 | at 2^31 - 2 wins with one game left, a team with -2 wins is not above `id`, yet its sink capacity wraps to -2^31 + 1 and `FlowEdge` throws |
| BaseballElimination.NontriviallyEliminate | baseball/BaseballElimination.java:106-121 | a negative capacity fails; otherwise exactly the decompressed names of the teams on the source side of the cut, all other than `id`, and null when there are none |
| BaseballElimination.CutTeams | baseball/BaseballElimination.java:111-120 | the loop over the team vertices collects exactly the decompressed names of the teams on the source side of the cut, and null when there are none |
| BaseballElimination.CreateCached | baseball/BaseballElimination.java:23-39 | a new division keeps the cache invariant: no entry is computed yet |
| BaseballElimination.CertificateOfElimination | baseball/BaseballElimination.java:156-171 | a team's certificate is computed once and then served from the cache, and a trivially eliminated team gets just its eliminator; a first query whose network throws fails after storing the trivial result but no certificate, so later queries answer null |
| BaseballElimination.IsEliminated | baseball/BaseballElimination.java:152-154 | a team is eliminated exactly when its certificate is not null; a query whose network throws fails, and afterwards the team reads as not eliminated |
| CollinearPoints.Present | Collinearity/src/FastCollinearPoints.java:100-115 | the points of an array with no null slot, and nothing when some slot is null |
| CollinearPoints.HasEqual | Collinearity/src/FastCollinearPoints.java:100-115 | some two points compare as equal |
| CollinearPoints.Validate | Collinearity/src/BruteCollinearPoints.java:40-55 | a null array, then a null point, then two equal points are rejected in that order; otherwise the points are accepted |
| CollinearPoints.ValidDistinct | Collinearity/src/FastCollinearPoints.java:100-115 | accepted points are pairwise distinct |
| BruteCollinear.MaxMin | Collinearity/src/BruteCollinearPoints.java:57-63 | max and min are the greater and the lesser of two points |
| BruteCollinear.MakeSegmentBounds | Collinearity/src/BruteCollinearPoints.java:65-71 | the segment runs from the least to the greatest of the four points |
| BruteCollinear.MakeSegmentProper | Collinearity/src/BruteCollinearPoints.java:65-71 | distinct points give a segment between two different points, the smaller first |
| BruteCollinear.FourthMeaning | Collinearity/src/BruteCollinearPoints.java:23-31 | the innermost loop finds the first later point on the slope, and nothing when there is none |
| BruteCollinear.FoundMeaning | Collinearity/src/BruteCollinearPoints.java:12-32 | a triple records a segment exactly when its slopes agree and a later point is on them; the first such point gives the segment |
| BruteCollinear.BruteCollinearPoints | Collinearity/src/BruteCollinearPoints.java:7-38 | validation's error comes first; then a wrapped negative `n * n` is a negative array size, and more segments than the `n * n` slots is an index out of bounds; otherwise the result is every segment the loops record, at most `n * n` of them |
| BruteCollinear.LoopsMeaning | Collinearity/src/BruteCollinearPoints.java:12-34 | the `m`-th recorded segment is the one of the `m`-th triple, in loop order, that finds a fourth point, and every such triple is listed, so there is exactly one segment per such triple |
| BruteCollinear.TwelveOnALine | Collinearity/src/BruteCollinearPoints.java:11-28 | twelve points on one line give 165 segments for 144 slots, so the constructor throws an index out of bounds |
| BruteCollinear.BruteSegments | Collinearity/src/BruteCollinearPoints.java:7-38 | every recorded segment joins two distinct input points, the smaller first |
| FastCollinear.MinMax | Collinearity/src/FastCollinearPoints.java:45-86 | the least and the greatest of the range, for odd and even lengths alike |
| FastCollinear.TakePair | Collinearity/src/FastCollinearPoints.java:69-82 | one pair of the loop: the smaller is tried against the minimum and the larger against the maximum |
| FastCollinear.CollinearComponent | Collinearity/src/FastCollinearPoints.java:88-98 | one plus the length of the maximal run at `start` with the same slope from the origin |
| FastCollinear.ScanBlock | Collinearity/src/FastCollinearPoints.java:28-37 | one block of equal slopes, and its segment exactly when it holds at least three points all greater than the origin |
| FastCollinear.BlockGathers | Collinearity/src/FastCollinearPoints.java:26-38 | in a copy sorted by slope a block holds every point with its slope |
| FastCollinear.OneBlockPerLine | Collinearity/src/FastCollinearPoints.java:26-38 | in a copy sorted by slope two blocks of the same slope are the same block: the scan sees each line through the origin as one block |
| FastCollinear.Scan | Collinearity/src/FastCollinearPoints.java:26-38 | the scan lists the eligible blocks' segments in block order, one per block: the m-th segment runs from the origin to the greatest point of the m-th eligible block, every eligible block is listed, and there are fewer than a third as many segments as points |
| FastCollinear.ScanNext | Collinearity/src/FastCollinearPoints.java:28-37 | one pass of the scan's loop appends the current block's segment exactly when it is eligible and moves past the block, keeping the listing |
| FastCollinear.OneSegmentPerLine | Collinearity/src/FastCollinearPoints.java:26-38 | in a copy sorted by slope the segments found for one origin all start at it and no two lie on the same line through it |
| FastCollinear.ScanNoRepeat | Collinearity/src/FastCollinearPoints.java:26-38 | over a copy without repeated points the scan never finds the same segment twice |
| FastCollinear.Origins | Collinearity/src/FastCollinearPoints.java:22-39 | the origins are taken in input order, each re-sorting the copy left by the previous one, and the segments are their scan listings one after another, at most a third of `n*n` of them |
| FastCollinear.OriginNext | Collinearity/src/FastCollinearPoints.java:23-38 | one origin re-sorts the copy left by the previous one and its scan listing is appended to the segments so far |
| FastCollinear.FastCollinearPoints | Collinearity/src/FastCollinearPoints.java:17-43 | validation's error comes first; then a wrapped negative `n * n` is a negative array size, and more segments than the `n * n` slots is an index out of bounds, neither of which happens below 46341 points; otherwise the result is the origins' listings one after another, each segment joining two input points, the smaller first |
| FastCollinear.SegmentsProper | Collinearity/src/FastCollinearPoints.java:30-35 | every kept segment joins two input points, the smaller first |

## Left out

- Every `main`, all standard input and output, and `BaseballElimination.readData`: the model takes the parsed data as arguments.
- Drawing (`KdTree.draw`) and `Board.toString`: they only format output.
- 8Puzzle/src/Solver.java, Percolation/src/PercolationStats.java, wordnet/SAP.java, wordnet/WordNet.java and kdtree/PointSET.java are not part of this model. They are a search over an unseen priority queue, random trials, delegation, and file parsing. The set of stored points plays the part of PointSET for the 2-d tree.
- Point.java, LineSegment and BoggleBoard are not part of this model. Points are an abstract total order `cmp` with a slope function `slope`, and the board is a grid of letters.
- The algs4 library internals are left out: union-find, max-flow, `Digraph`, `Queue`, `Picture`, `Point2D` and `RectHV`. Only their interfaces are modelled.
- Floating point: `Math.sqrt` in the seam energy is the parameter `root`. Double coordinates and distances in the 2-d tree are exact reals, without NaN, infinities or rounding.
- Random choices: `StdRandom.uniform` and `StdRandom.shuffle` are nondeterministic choices. Their distribution is not modelled.
- Iterator `remove`: it only throws `UnsupportedOperationException`.
- EightPuzzle.CalculateHamming: stated only for boards of fewer than 2^31 cells, and so is `EightPuzzle.CalculateManhattan`. The source computes both metrics before the allocation, but a larger board always throws at the allocation, so the model allocates first and computes them only for boards that survive it.
- KdTree.Insert: when `RectHV` throws, the source has already counted the point in `size` and linked the new node with a null rectangle. The model returns the error and does not model that damaged tree.
- BaseballElimination.BuildNetwork: the vertex count `n - 1 + (n - 2) * (n - 1) / 2 + 2` and the game numbers are unbounded integers. Their `int` overflow, from 46343 teams on, is not modelled.
- RandomizedQueue.Enqueue: `2 * size` is unbounded; Java's overflow beyond 2^30 items is not modelled.
- Percolation.New: `n * n` is unbounded; an overflowing grid size is not modelled.
- Percolation.Open: which of the two roots the weighted union keeps is left open, and union by size is not modelled.
- BreadthFirstSap.Create: requires at most 2^30 vertices. The source accepts larger graphs, and there its `int` sum `distTo1[v] + distTo2[v]` can wrap; that case is not modelled.
- BreadthFirstSap.Reported: distances and the `INFINITY` sentinel are unbounded integers. This is exact for graphs of at most 2^30 vertices, where no sum of two distances reaches `INFINITY`.
- BaseballElimination.BuildNetwork: the infinite capacity is a distinguished edge kind. The finite ones are the `int` values the source computes, which a `double` holds exactly.
- BaseballElimination.NontriviallyEliminate: the max-flow is the parameter `cut`, and nothing is proved about the minimum cut itself.
- `teams()` is not modelled: it returns the hash table's keys in an order this model does not fix.
- Boggle.GetAllValidWords: soundness only. The search is not proved to find every word of the board.
- TrieSet.Next: `Character.isUpperCase` is the parameter `isUpperCase`, required to accept at least A–Z.
- TrieSet.Add: `add`, `contains` and `delete` take words over A–Z. On any other character the source's index `c - 'A'` throws `ArrayIndexOutOfBoundsException`; that path is not modelled.
- LinkedDeque: nodes that are unlinked stay in the heap map, as garbage would until collected.
- RandomizedQueue.Next: the `ConcurrentModificationException` check compares sizes only, as the source does. A change that keeps the size is not detected.
- FastCollinear.FastCollinearPoints: the sort by slope is the parameter `sortBySlope`. It is required only to return a rearrangement of the points, not to sort them or to put the origin first. The scan skips position 0 whatever it holds, as the source's loop does. That equal slopes mean collinear points is a fact about `Point`, which is not modelled.
- BruteCollinear.BruteCollinearPoints: a buffer size that is positive but too large for the heap would throw `OutOfMemoryError`. That is not modelled, here or in `FastCollinear.FastCollinearPoints`.
- The fast constructor's buffer: the loop over the origins runs to the end and the result is then compared with the buffer size. The source throws at the first write past the end instead. Both give the same outcome, because nothing outside the constructor sees the partial buffer.
- `numberOfSegments` and `segments` are not separate members: in a value model they are the length of the result and the result itself, and the defensive copy is the identity.
- CollinearPoints.Validate: the duplicate check is stated by its meaning (two points comparing equal) rather than as a sort followed by a comparison of neighbours.
- FastCollinear.MinMax: requires that `cmp` is a total order, which `compareTo`'s contract promises.
- SeamFinder.FindSeam: the shortest-path sums `distTo` are exact reals, and so are the comparisons `>` and `<` on them. Double rounding is not modelled, so on near-ties the source may pick a different seam, and its seam is optimal only up to rounding.
- Outcast.FindOutcast: the WordNet distance is the parameter `dist`. WordNet's exceptions for unknown nouns and a null array are not modelled.

## Findings

| source | as written | input that shows it | evidently intended | confidence | as-written member | corrected member |
|---|---|---|---|---|---|---|
| burrows/CircularSuffixArray.java:44-64 | `sort` recurses on the band equal to the pivot at depth `d + 1` with no bound on `d`; `charAt` wraps the depth modulo the length, so a band of equal rotations never shrinks | a string of one repeated character longer than `CUTOFF + 1` = 16, such as seventeen `A`s | stop when `d` reaches the length, because rotations that agree on `length` characters are equal | not executed | CircularSuffixArray.Sort | CircularSuffixArray.SortBounded |
