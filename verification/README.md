# alg-board in Dafny

A model of the algorithm assignments in the alg-board repository: the
baseball-elimination solver with its flow network and Ford-Fulkerson search;
the 8-puzzle `Board`; move-to-front coding; the Burrows-Wheeler transform and
the circular suffix array it sorts with; the resizing-array `Deque` and
`RandomizedQueue`; `Percolation` on top of union-find; the Boggle solver with
its ternary search trie; the 2-d tree `KdTree`; and the `SeamCarver`'s picture
bookkeeping and seam removal.

Each class becomes a module holding an immutable datatype for the object's
state and a pure function (or, for loop algorithms, a method) per operation.
A Java exception is an `Err` of the `Result` type in `Wrappers`, naming the
exception class. A `null` argument that the code tests for is an `Option`
that is `None`. Randomness (`StdRandom`) enters as a parameter: the chosen
index or the shuffled order. Union-find is modelled by the relation it
answers, in `Connectivity`. `Grid`, `Lex`, `Sorting` and `Seqs` hold shared
definitions: flattened indices, `String.compareTo`, sorting, and
map/filter/permutation facts.

The main results:

- `CertificateOfElimination` returns a certificate exactly when one exists. A
  certificate is a set R of teams whose wins plus remaining games among
  themselves, averaged over R, exceed what the team can reach. When it returns
  none, a flow that plays every remaining game has been exhibited. Behind this
  are max-flow min-cut (`FordFulkersonIsOptimal`) and the BFS search tree of
  `HasAugmentingPath`.
- Move-to-front decoding inverts encoding, in both directions.
- The inverse Burrows-Wheeler transform recovers every non-empty message.
- The deque and the randomized queue keep their contents through every
  resize; their iterators yield those contents.
- Percolation's "full" is connection to the virtual top in the equivalence
  that the unions made so far generate.
- Inserting into the trie makes exactly that word valid. The words the solver
  reports are dictionary words of three or more letters, sorted and without
  repeats.
- The 2-d tree keeps its ordering invariant. Its size counts distinct points,
  and `contains` is set membership.
- Seam removal deletes exactly the seam's pixel from each row (or column) and
  shifts the rest.

## Model

| member | source | states |
|---|---|---|
| Baseball.IndexOf | src/BaseballElimination.java:62-68 | the team-name map holds exactly the listed names, each mapped to the last position where it is listed |
| Baseball.NewDivision | src/BaseballElimination.java:53-75 | the division keeps the tables as read and indexes exactly the listed names, each at its last listed position; it is well formed exactly when every table has one entry per team and no game count is negative |
| Baseball.DistinctNamesIndexThemselves | src/BaseballElimination.java:62-68 | when no name is listed twice, looking up the team listed at position `k` gives `k` |
| Baseball.NumberOfTeams | src/BaseballElimination.java:94-96 | the number of teams is the length of the wins and of the against table |
| Baseball.GetTeamIndex | src/BaseballElimination.java:85-91 | an unknown team is an illegal argument; a known one yields the last position where the name is listed, the one the name map keeps |
| Baseball.Wins | src/BaseballElimination.java:104-106 | an unknown team is an illegal argument; otherwise the wins at the team's last listed position |
| Baseball.Losses | src/BaseballElimination.java:109-111 | an unknown team is an illegal argument; otherwise the losses at the team's last listed position |
| Baseball.Remaining | src/BaseballElimination.java:114-116 | an unknown team is an illegal argument; otherwise the games left at the team's last listed position |
| Baseball.Against | src/BaseballElimination.java:119-121 | either name unknown is an illegal argument; otherwise the games left between the two teams, read at each name's last listed position |
| Baseball.LastPositionUnique | src/BaseballElimination.java:62-68 | a name has only one last listed position, so the accessors read exactly one table entry |
| Baseball.Trivial | src/BaseballElimination.java:179-192 | lists, in increasing order, exactly the teams whose wins already exceed the team's best possible total |
| Baseball.TrivialCertifies | src/BaseballElimination.java:129-135 | a non-empty list of teams already ahead is a valid elimination certificate |
| Baseball.VertexLayout | src/BaseballElimination.java:143-153 | the source, game vertices, team vertices and sink are numbered into disjoint ranges, and different games or teams get different vertices |
| Baseball.Games | src/BaseballElimination.java:155-164 | the network gets a game vertex for exactly the pairs of other teams with games left between them |
| Baseball.AddAll | src/BaseballElimination.java:299-304 | adding edges fails exactly when an endpoint is outside the network; it appends the edges and keeps the network well formed |
| Baseball.EliminationEdgesFit | src/BaseballElimination.java:141-164 | every edge built for the elimination network has both endpoints inside the network |
| Baseball.CutTeamsFrom | src/BaseballElimination.java:166-175 | the team vertices on the source side of the cut are read off as an increasing list of other teams |
| Baseball.CutCertificate | src/BaseballElimination.java:166-176 | when the maximum flow leaves some game unplayed, the teams on the source side of the minimum cut certify elimination |
| Baseball.CertCutMembers | src/BaseballElimination.java:141-175 | the cut built from a team set R holds the source, the games inside R and R's team vertices, and never the sink |
| Baseball.CertCutTeams | src/BaseballElimination.java:166-175 | reading the teams off the cut built from R gives back R |
| Baseball.CertificateExcludesFlow | src/BaseballElimination.java:141-177 | when a certificate exists, no flow in the elimination network plays all remaining games |
| Baseball.CheckForWinDistribution | src/BaseballElimination.java:141-177 | returns an increasing list of other teams; if non-empty it certifies elimination and no flow can play every game; if empty, a flow playing every game exists |
| Baseball.CertificateOfElimination | src/BaseballElimination.java:129-139 | an unknown team is an illegal argument; a certificate is returned exactly when one exists; it is the trivial list when that is non-empty |
| Baseball.IsEliminated | src/BaseballElimination.java:124-126 | an unknown team is an illegal argument; otherwise true exactly when some certificate of elimination exists |
| FlowNetworks.Other | src/BaseballElimination.java:256-263 | the endpoint across the edge from an endpoint; a vertex not on the edge is an illegal argument |
| FlowNetworks.ResidualCapacityTo | src/BaseballElimination.java:265-272 | the residual capacity towards an endpoint; any other vertex is an illegal argument |
| FlowNetworks.ResidualsSplitCapacity | src/BaseballElimination.java:265-272 | the two residual capacities add up to the capacity, and both are non-negative exactly when the flow is within bounds |
| FlowNetworks.AddResidualFlowTo | src/BaseballElimination.java:274-282 | pushing flow towards an endpoint changes only the flow, raising it towards `to` and lowering it towards `from`; any other vertex is an illegal argument |
| FlowNetworks.NewNetwork | src/BaseballElimination.java:291-297 | a network of `n` vertices with no edges and empty adjacency lists |
| FlowNetworks.AddEdge | src/BaseballElimination.java:299-304 | an endpoint outside the network is out of bounds; otherwise the edge is appended and listed at both endpoints |
| FlowNetworks.HasAugmentingPath | src/BaseballElimination.java:214-232 | the marked vertices form a search tree from the source along edges with residual capacity; no residual edge leaves the marked set; the result says whether the sink is marked |
| FlowNetworks.ClosedIsSaturated | src/BaseballElimination.java:214-232 | when no residual edge leaves the marked set, every edge out of it is full and every edge into it is empty |
| FlowNetworks.Bottleneck | src/BaseballElimination.java:202-205 | the smallest residual capacity along the tree path from source to sink, positive and at most `Integer.MAX_VALUE` |
| FlowNetworks.Augment | src/BaseballElimination.java:206-209 | pushing the bottleneck along the path keeps capacities and flow bounds, and raises the flow out of the source (and into the sink) by exactly that amount |
| FlowNetworks.FordFulkerson | src/BaseballElimination.java:199-212 | the result is a feasible flow that is conserved at every inner vertex; its value equals the capacity of the cut given by the last search's marked set, which holds the source and not the sink |
| FlowNetworks.FlowAtMostCut | src/BaseballElimination.java:199-212 | no feasible flow's value exceeds the capacity of any cut separating source from sink |
| FlowNetworks.ValueIsCutNet | src/BaseballElimination.java:199-212 | the value of a conserved flow is the net flow across any source-sink cut |
| FlowNetworks.FordFulkersonIsOptimal | src/BaseballElimination.java:199-212 | max-flow min-cut: every other feasible flow is at most the value found, and every cut is at least it |
| Board.FlattenRows | src/Board.java:21-37 | the row-major flattening of the square block array: cell (i, j) lands at i·n + j |
| Board.New | src/Board.java:21-37 | a null array, one of fewer than two rows, or one whose first row's length differs from the row count is an illegal argument; a later row shorter than that is out of bounds; a later row that is longer is accepted and its extra entries are ignored; the blocks are the rows read row-major |
| Board.Hamming | src/Board.java:51-56 | the number of cells holding a tile other than the goal tile for that cell, the blank not counted; zero exactly when no tile is out of place |
| Board.Manhattan | src/Board.java:68-76 | never below the Hamming count, and zero exactly when no tile is out of place |
| Board.HammingAtMostManhattan | src/Board.java:51-76 | the Hamming distance never exceeds the Manhattan distance, and one is zero exactly when the other is |
| Board.IsGoal | src/Board.java:79-86 | as written: true exactly when every cell before the last two holds its goal tile |
| Board.IsGoalAcceptsUnsolvedBoard | src/Board.java:79-86 | the 2-by-2 board 1 2 / 0 3 is accepted as the goal though its tiles are out of place |
| Board.GoalFromFixed | src/Board.java:79-86 | corrected scan: every cell before the last holds its goal tile |
| Board.IsGoalFixedExact | src/Board.java:79-86 | the corrected goal test holds exactly for the goal arrangement 1, 2, …, n²-1, 0 |
| Board.FindEmptyPosition | src/Board.java:167-174 | when found, the position holds the blank |
| Board.Exchange | src/Board.java:161-165 | swapping two cells swaps their contents, leaves every other cell alone, and keeps the tiles |
| Board.MoveTargets | src/Board.java:130-155 | the candidate positions are exactly the cells that share a side with the blank, two to four of them, listed left, right, up, down (`Side` strictly increases along them) |
| Board.BlankMove | src/Board.java:130-155 | a move gives a valid board of the same dimension with the same tiles |
| Board.Neighbors | src/Board.java:177-189 | a board without a blank is an illegal state; otherwise two to four valid boards with the same tiles |
| Board.NeighborsAreBlankMoves | src/Board.java:130-189 | each neighbour swaps the blank with one tile beside it, and every such swap is a neighbour; the `k`-th neighbour swaps with the `k`-th target, so they come left, right, up, down |
| Board.BlankAfterMove | src/Board.java:130-174 | after a move from a board with one blank, there is still one blank, and it sits where the moved tile was |
| Board.NeighborsSymmetric | src/Board.java:130-189 | each neighbour has the original board among its own neighbours |
| Board.Equals | src/Board.java:111-128 | equality holds exactly for a non-null board with the same dimension and blocks |
| Board.EqualsIsEquivalence | src/Board.java:111-128 | `equals` is reflexive, symmetric and transitive, and false against null |
| MoveToFront.InitialTable | src/MoveToFront.java:118-121 | the table starts as the identity on the 256 extended-ASCII values |
| MoveToFront.GetCharacter | src/MoveToFront.java:88-95 | a position past the table is out of bounds; otherwise the symbol there, and the table with that symbol moved to the front |
| MoveToFront.GetCharacterKeepsPermutation | src/MoveToFront.java:88-95 | moving a symbol to the front keeps the table a permutation of the 256 symbols |
| MoveToFront.DecodeWith | src/MoveToFront.java:81-86 | decoding fails exactly when some code is past the table; otherwise it yields one symbol per code |
| MoveToFront.Decode | src/MoveToFront.java:49-57 | decoding fails exactly when some code is 256 or more |
| MoveToFront.UpdateCountsBefore | src/MoveToFront.java:186-191 | the recorded position goes up by one for exactly the symbols ahead of the moved one |
| MoveToFront.MoveToFirst | src/MoveToFront.java:170-177 | the symbol goes to the front, the others keep their order, and the position index stays in step with the list |
| MoveToFront.GetIndex | src/MoveToFront.java:127-137 | a symbol of 256 or more is out of bounds; otherwise its current position, with the symbol then moved to the front |
| MoveToFront.EncodeWith | src/MoveToFront.java:109-116 | encoding fails exactly when some symbol is 256 or more; otherwise one code below 256 per symbol |
| MoveToFront.Encode | src/MoveToFront.java:26-35 | encoding fails exactly when some symbol is 256 or more |
| MoveToFront.StepsAgree | src/MoveToFront.java:88-137 | one encoding step and one decoding step at the same position leave identical tables |
| MoveToFront.DecodeEncode | src/MoveToFront.java:26-57 | decoding the encoding gives back the message |
| MoveToFront.EncodeDecode | src/MoveToFront.java:26-57 | encoding the decoding gives back the codes |
| CircularSuffixArray.Rotation | src/CircularSuffixArray.java:22-27 | the `i`-th circular suffix has the string's length, and position `k` holds the string's character `(i + k) mod n` |
| CircularSuffixArray.SortSuffixes | src/CircularSuffixArray.java:22-34 | the index is a permutation of `0..n-1` whose circular suffixes are in `compareTo` order |
| CircularSuffixArray.New | src/CircularSuffixArray.java:12-20 | null is an illegal argument; the empty string gets no index; otherwise the index sorts the suffixes |
| CircularSuffixArray.Length | src/CircularSuffixArray.java:37-39 | for a built array, the length is the number of sorted rotations listed, and every listed start is below it |
| CircularSuffixArray.Index | src/CircularSuffixArray.java:42-47 | a position outside the array, or any position for the empty string, is an illegal argument; otherwise the sorted index entry |
| CircularSuffixArray.IndexInRange | src/CircularSuffixArray.java:37-47 | `index(i)` succeeds exactly for `0 <= i < length()` and then names a suffix of the string |
| Lex.CompareTo | src/CircularSuffixArray.java:73-78 | `compareTo` is zero exactly for equal strings |
| Lex.CompareToIsLexicographic | src/CircularSuffixArray.java:73-78 | `compareTo` is negative exactly when the first string is a proper prefix of the second or holds the smaller character at the first difference, and positive exactly in the mirrored case |
| BurrowsWheeler.LastIndexOf | src/BurrowsWheeler.java:30-37 | the last position holding the value, or -1 exactly when it is absent |
| BurrowsWheeler.Rows | src/BurrowsWheeler.java:26-29 | the sorted rotation index of the message |
| BurrowsWheeler.Transform | src/BurrowsWheeler.java:26-39 | `first` is -1 exactly for the empty message, else the row where the original sits; the last column is as long as the message |
| BurrowsWheeler.TransformLastColumn | src/BurrowsWheeler.java:33-38 | row `i` of the last column is the last character of the `i`-th sorted rotation |
| BurrowsWheeler.SuccPredAreMod | src/BurrowsWheeler.java:36 | the step back to the previous position, written by cases, is the remainder `(length - 1 + origIndex) % length` the source reads the last column at; the step forward is `(a + 1) % length` |
| BurrowsWheeler.TransformPermutes | src/BurrowsWheeler.java:26-39 | the last column is a rearrangement of the message |
| BurrowsWheeler.SortChars | src/BurrowsWheeler.java:68-69 | the sorted last column: the same characters, in order |
| BurrowsWheeler.PositionMap | src/BurrowsWheeler.java:57-67 | each character seen maps to the queue of its positions, in increasing order |
| BurrowsWheeler.NextLoopValue | src/BurrowsWheeler.java:70-73 | the `next` loop takes, for each sorted character, the earliest unused position of that character |
| BurrowsWheeler.NextLinksRotations | src/BurrowsWheeler.java:56-80 | `next` maps a sorted row to the row of the rotation one step further on |
| BurrowsWheeler.InverseTransform | src/BurrowsWheeler.java:56-82 | a `first` outside the text is out of bounds; otherwise a message of the text's length |
| BurrowsWheeler.RoundTrip | src/BurrowsWheeler.java:26-82 | the inverse transform recovers every non-empty message |
| BurrowsWheeler.EmptyMessageFails | src/BurrowsWheeler.java:74-81 | as written: the empty message transforms to (-1, "") and inverting that is out of bounds |
| BurrowsWheeler.InverseTransformOrEmpty | src/BurrowsWheeler.java:56-82 | corrected inverse: the empty text decodes to the empty message |
| BurrowsWheeler.RoundTripOrEmpty | src/BurrowsWheeler.java:26-82 | with the correction, the round trip holds for every message, the empty one included |
| Deque.Size | src/Deque.java:29-31 | the number of items, the distance from `first` to `last` around the array |
| Deque.Contents | src/Deque.java:137-154 | the items from front to back |
| Deque.New | src/Deque.java:18-21 | a valid, empty deque over an array of the initial capacity |
| Deque.IsEmpty | src/Deque.java:24-26 | true exactly when the deque holds no items |
| Deque.IsFull | src/Deque.java:84-86 | full exactly when every slot but the spare one holds an item, that is, when stepping `last` on once more would reach `first` |
| Deque.ModifyCapacity | src/Deque.java:88-98 | resizing keeps the items in order, gives an array of the requested capacity, and starts the items at slot 0 with `last` at the item count |
| Deque.CheckArrayCapacity | src/Deque.java:100-104 | a full array doubles, any other stays; afterwards one more item fits; the items are unchanged |
| Deque.ShrinkIfRequired | src/Deque.java:106-110 | an array at most a quarter used halves, any other stays; the items are unchanged |
| Deque.AddFirst | src/Deque.java:34-43 | a null item is refused; otherwise the item goes in front of the others |
| Deque.AddLast | src/Deque.java:46-53 | a null item is refused; otherwise the item goes behind the others |
| Deque.RemoveFirst | src/Deque.java:56-65 | an empty deque has no such element; otherwise the front item, and the rest in order |
| Deque.PoppedFront | src/Deque.java:56-65 | clearing the front slot and stepping `first` on hands out the front item and leaves the rest in order |
| Deque.RemoveLast | src/Deque.java:68-77 | an empty deque has no such element; otherwise the back item, and the rest in order |
| Deque.Next | src/Deque.java:142-154 | past the last slot there is no such element; otherwise the slot's content and the following slot |
| Deque.ItemsFrom | src/Deque.java:142-154 | the iterator yields one item per remaining slot |
| Deque.IteratorYieldsContents | src/Deque.java:137-154 | the iterator yields exactly the items, front to back |
| RandomizedQueue.Contents | src/RandomizedQueue.java:21-28 | the items held in the first `size` slots |
| RandomizedQueue.New | src/RandomizedQueue.java:16-18 | a valid, empty queue over an array of the initial capacity |
| RandomizedQueue.IsEmpty | src/RandomizedQueue.java:21-23 | true exactly when the queue holds no items |
| RandomizedQueue.ModifyCapacity | src/RandomizedQueue.java:69-77 | resizing keeps the items and gives an array of the requested capacity |
| RandomizedQueue.CheckArrayCapacity | src/RandomizedQueue.java:79-83 | a full array doubles, any other stays; afterwards one more item fits; the items are unchanged |
| RandomizedQueue.ShrinkIfRequired | src/RandomizedQueue.java:85-89 | an array at most a quarter used halves, any other stays; the items are unchanged |
| RandomizedQueue.Enqueue | src/RandomizedQueue.java:31-37 | a null item is refused; otherwise the item joins at the end |
| RandomizedQueue.Dequeue | src/RandomizedQueue.java:40-52 | an empty queue has no such element; otherwise the item at the chosen position, with the last item moved into its place |
| RandomizedQueue.DequeueRemovesOne | src/RandomizedQueue.java:40-52 | the removed item plus the remaining items are exactly the items before |
| RandomizedQueue.Sample | src/RandomizedQueue.java:55-61 | an empty queue has no such element; otherwise the item at the chosen position, and nothing is removed |
| RandomizedQueue.Next | src/RandomizedQueue.java:110-115 | past the end of the order there is no such element; otherwise the item in the slot the order names |
| RandomizedQueue.ItemsFrom | src/RandomizedQueue.java:105-115 | the iterator yields one item per remaining entry of the order |
| RandomizedQueue.IteratorYieldsContents | src/RandomizedQueue.java:96-115 | for any shuffle of the positions, the iterator yields the items, each once, in some order |
| Connectivity.ConnectedIsEquivalence | src/Percolation.java:70-74 | connectivity after a series of unions is an equivalence that joins every recorded pair |
| Connectivity.ConnectedIsLeast | src/Percolation.java:70-74 | it is the least such equivalence: any equivalence holding every recorded pair contains it |
| Connectivity.ConnectedGrows | src/Percolation.java:70-74 | further unions never disconnect anything |
| Connectivity.UntouchedIsAlone | src/Percolation.java:70-74 | a node no union mentions is connected only to itself |
| Percolation.MapTo1DArrayRange | src/Percolation.java:66-68 | each site maps into `1..n²`, never onto the virtual top or bottom, and the site can be read back |
| Percolation.MapTo1DArrayInjective | src/Percolation.java:66-68 | different sites map to different nodes |
| Percolation.IsValidSite | src/Percolation.java:76-78 | a valid site is one of the `n²` cells of the grid, numbered row by row |
| Percolation.New | src/Percolation.java:11-15 | an `n`-by-`n` grid with every site blocked, no open sites, not percolating |
| Percolation.IsOpen | src/Percolation.java:41-46 | a site outside the grid is an illegal argument; otherwise whether it is open |
| Percolation.IsFull | src/Percolation.java:49-54 | a site outside the grid is an illegal argument; otherwise whether the site is connected to the virtual top |
| Percolation.NumberOfOpenSites | src/Percolation.java:57-59 | the number of open sites in the grid |
| Percolation.Percolates | src/Percolation.java:62-64 | the system percolates only once unions have joined some site to the virtual top and some site to the virtual bottom |
| Percolation.Connect | src/Percolation.java:70-74 | at most one union is recorded, and one is exactly when the neighbour is inside the grid and open; it joins the current node to a site node in `1..n²`, never a virtual node |
| Percolation.JoinNeighbours | src/Percolation.java:23-37 | opening records a union with each open side-neighbour and, on the first or last row, with the virtual top or bottom |
| Percolation.JoinsAreNeighbours | src/Percolation.java:23-37 | the unions recorded join the site exactly to its open side-neighbours, and to the virtual top or bottom on the first or last row |
| Percolation.Open | src/Percolation.java:18-38 | a site outside the grid is an illegal argument; an open site changes nothing; otherwise it becomes open, the count rises by one, no other site changes, and its unions are added |
| Percolation.BlockedNeverFull | src/Percolation.java:49-54 | a blocked site is never full |
| Percolation.OpenKeepsConnections | src/Percolation.java:18-38 | opening a site never disconnects two nodes |
| Percolation.OpenTopRowIsFull | src/Percolation.java:18-54 | a site opened on the top row is full |
| Percolation.SingleSitePercolates | src/Percolation.java:18-64 | a 1-by-1 grid percolates once its site is open |
| Boggle.ScoreOf | src/BoggleSolver.java:73-90 | null is an illegal argument; otherwise the score from the table 0, 0, 0, 1, 1, 2, 3, 5 by length, and 11 from eight letters |
| Boggle.GetNode | src/BoggleSolver.java:201-216 | a lookup at or past the word's end finds nothing; a node found holds the word's last character |
| Boggle.IsValid | src/BoggleSolver.java:196-199 | only a non-empty word stored in the trie is valid |
| Boggle.Put | src/BoggleSolver.java:218-239 | putting at or past the word's end yields null, and otherwise a node |
| Boggle.PutThenGet | src/BoggleSolver.java:201-239 | after `put`, looking up a word with the same remaining suffix finds the put word; any other lookup finds what it found before |
| Boggle.PutWord | src/BoggleSolver.java:192-194 | as written, putting the empty word empties the trie |
| Boggle.PutWordAdds | src/BoggleSolver.java:192-199 | for a non-empty word, putting it makes it valid and changes no other word's validity |
| Boggle.PutEmptyDiscardsTrie | src/BoggleSolver.java:192-194 | after putting "AND" and then "", "AND" is no longer valid |
| Boggle.PutWordFixed | src/BoggleSolver.java:192-194 | corrected: putting the empty word leaves the trie alone |
| Boggle.PutWordFixedAdds | src/BoggleSolver.java:192-199 | with the correction, the valid words are the old ones plus the put word when it is non-empty |
| Boggle.Build | src/BoggleSolver.java:16-25 | the trie holds only dictionary words, and its valid words are exactly the non-empty dictionary words |
| Boggle.New | src/BoggleSolver.java:16-25 | a null dictionary is an illegal argument; otherwise the trie's valid words are exactly the non-empty dictionary words |
| Boggle.AddIfValid | src/BoggleSolver.java:65-69 | only cells inside the board are added |
| Boggle.To1D | src/BoggleSolver.java:61-63 | for a cube on the board, the vertex is non-negative and dividing it by the row length gives back the cube's row and column |
| Boggle.CreateEdges | src/BoggleSolver.java:49-59 | the edges of a cell lead to cells inside the board |
| Boggle.CreateGraph | src/BoggleSolver.java:36-47 | one adjacency list per cell, every entry a cell of the board |
| Boggle.GraphIsKingMoves | src/BoggleSolver.java:36-69 | two cells are adjacent exactly when they touch horizontally, vertically or diagonally; no cell is adjacent to itself; adjacency is symmetric |
| Boggle.FindFrom | src/BoggleSolver.java:118-139 | every word found from a cell is stored in the trie and has more than two letters |
| Boggle.Explore | src/BoggleSolver.java:118-139 | every word found among a cell's neighbours is stored in the trie and has more than two letters |
| Boggle.FindWords | src/BoggleSolver.java:108-116 | every word found from any starting cell is stored in the trie and has more than two letters |
| Boggle.Dedup | src/BoggleSolver.java:28-34 | the same words, without repeats, in strictly increasing order |
| Boggle.GetAllValidWords | src/BoggleSolver.java:28-34 | exactly the words found, strictly increasing, each a trie word of more than two letters |
| Boggle.SolverReportsDictionaryWords | src/BoggleSolver.java:16-34 | every word reported is in the dictionary and has at least three letters |
| KdTree.CompareCoord | src/KdTree.java:62-67 | -1, 0 or 1 as the first coordinate is below, equal to or above the second |
| KdTree.Compare | src/KdTree.java:62-67 | compares the points on `x` at level 0 and on `y` otherwise |
| KdTree.GetNextLevel | src/KdTree.java:69-74 | the root's level is 0, and below it the axis alternates |
| KdTree.AddPoint | src/KdTree.java:231-238 | the list gains the point once, at its end, unless it is already there; a list without repeats stays without repeats |
| KdTree.InsertAt | src/KdTree.java:45-60 | insertion keeps the tree ordered on alternating axes with consistent sizes, and adds exactly the point |
| KdTree.ContainsAtIsMembership | src/KdTree.java:84-101 | the search finds a point exactly when the tree holds it |
| KdTree.SizeCountsPoints | src/KdTree.java:25-30 | a node's size is the number of distinct points in its subtree |
| KdTree.InOrderListsEachOnce | src/KdTree.java:114-123 | the in-order listing holds each stored point exactly once, and its length is the size |
| KdTree.New | src/KdTree.java:15-18 | a valid, empty tree |
| KdTree.SizeOf | src/KdTree.java:32-35 | `size()` is the number of distinct points inserted |
| KdTree.IsEmpty | src/KdTree.java:20-23 | true exactly when no point has been inserted |
| KdTree.Insert | src/KdTree.java:37-43 | a null point is an illegal argument; otherwise the point set gains the point and stays ordered, with the root at level 0 |
| KdTree.Contains | src/KdTree.java:76-82 | a null point is an illegal argument; otherwise membership in the point set |
| KdTree.InsertThenContains | src/KdTree.java:37-101 | after inserting a point it is contained; the size grows by one exactly when the point is new |
| SeamCarver.New | src/SeamCarver.java:15-31 | a null picture is an illegal argument; otherwise the carver holds the picture's size and pixels |
| SeamCarver.ToPicture | src/SeamCarver.java:68-76 | the picture of the current width and height, pixel for pixel as held |
| SeamCarver.PictureRoundTrip | src/SeamCarver.java:15-31 | a picture read in and written out comes back unchanged |
| SeamCarver.FindNext | src/SeamCarver.java:62-65 | the next index, or -1 exactly when it would leave the range |
| SeamCarver.IsAllIndexPositive | src/SeamCarver.java:54-60 | true exactly when no index is negative |
| SeamCarver.CalculateEnergy | src/SeamCarver.java:33-45 | a border pixel gets the border energy; an inner pixel's gradient uses its four side-neighbours |
| SeamCarver.EnergyAt | src/SeamCarver.java:89-97 | a pixel outside the picture is an illegal argument; border pixels get `DEFAULT_BORDER_ENERGY` (1000), and only they do; inner pixels take the gradient of their four side-neighbours |
| SeamCarver.FirstBad | src/SeamCarver.java:227-243 | the first seam entry that is out of range or more than one away from the previous entry |
| SeamCarver.ShiftRowLeft | src/SeamCarver.java:220-222 | the pixels right of the seam entry in that row move one column left |
| SeamCarver.RowsLoseSeamPixel | src/SeamCarver.java:210-225 | after the shift, each row is the old row with its seam pixel removed |
| SeamCarver.RemoveVerticalSeam | src/SeamCarver.java:210-243 | fails (illegal argument) exactly for a null seam, a seam of the wrong length, an entry out of range, or a step of more than one; on success the width drops by one and each row loses its seam pixel; on failure the rows already shifted stay shifted |
| SeamCarver.ShiftColumnUp | src/SeamCarver.java:202-204 | the pixels below the seam entry in that column move one row up |
| SeamCarver.ColumnsLoseSeamPixel | src/SeamCarver.java:192-207 | after the shift, each column is the old column with its seam pixel removed |
| SeamCarver.RemoveHorizontalSeam | src/SeamCarver.java:192-243 | fails (illegal argument) exactly for a null seam, a seam of the wrong length, an entry out of range, or a step of more than one; on success the height drops by one and each column loses its seam pixel |
| SeamCarver.EmptySeamNarrowsPastZero | src/SeamCarver.java:210-225 | as written: from a 1-by-1 picture, a horizontal seam and then empty vertical seams are accepted, which drives the width to zero and below |
| SeamCarver.NarrowPastZero | src/SeamCarver.java:192-225 | as written: on a 1-by-1 carver, `removeHorizontalSeam([0])` and then `removeVerticalSeam([])` twice all succeed and leave width -1 |
| SeamCarver.RemoveVerticalSeamChecked | src/SeamCarver.java:210-225 | corrected: a picture of width zero refuses the seam, so the width never goes negative |
| SeamCarver.RemoveHorizontalSeamChecked | src/SeamCarver.java:192-207 | corrected: a picture of height zero refuses the seam, so the height never goes negative |

## Left out

- Reading the division, dictionary, board or picture from files or standard input; `main` methods; `toString`; and the binary streams of `MoveToFront` and `BurrowsWheeler`. These are all I/O.
- `BurrowsWheeler.transform()` writes `first` as text ahead of the characters, and `inverseTransform()` reads it back with `readInt`. The model passes the pair (`first`, last column) directly, because the wire format is I/O.
- `SeamCarver.energy` returns `Math.sqrt` of the squared RGB gradients. The model returns which pixels the gradient uses (`Energy.Gradient`), not the floating-point value. Pixels are an opaque type.
- `findVerticalSeam`, `findHorizontalSeam`, `relax`, `initalizeSeam` and `toOneDimension` are left out. They are a shortest-path search over floating-point energies.
- `SeamCarver.width()` and `height()` are fields of the model state, not separate functions.
- SeamCarver.ToPicture: requires non-negative sizes. What the algs4 `Picture` constructor does with a negative size is not part of this model.
- `KdTree.range`, `nearest` and `draw`, and the `RectHV` distance helpers, are left out. They are floating-point geometry and drawing. Points have integer coordinates in this model.
- `Board.twin` is left out, because it draws random positions. The A* `Solver` and `SolverWith2PQ` are left out, because they depend on a priority queue and on the twin.
- `PercolationStats` is left out, because it uses random sites and floating-point statistics.
- `WeightedQuickUnionUF` is not part of this model. Percolation records its `union` calls. `connected` is modelled as the equivalence those unions generate (`Connectivity.Connected`), not as the weighted forest.
- Percolation.New: takes a natural `n`. A negative `n` makes the source's array allocation throw, and that path is not modelled.
- `StdRandom` in `RandomizedQueue` is left out. The random index of `dequeue`/`sample` and the shuffled order of the iterator are parameters.
- The iterators' `remove()` is left out: it only throws `UnsupportedOperationException`.
- `MoveToFront`'s doubly linked list (`DNodeList`) is modelled as the symbol order it represents, plus the position index it keeps in step.
- Boggle.GetAllValidWords: does not state that every board word in the dictionary is found, nor that each reported word is spelled along a path of the board. Only soundness against the dictionary, ordering and uniqueness are proved.
- Boggle.New: builds the trie with the corrected `put`, so that the empty word cannot discard the dictionary. The as-written `put` is `Boggle.PutWord`.
- Boggle.Build: the loop of the constructor, likewise applying the corrected `PutWordFixed` to each dictionary word.
- Baseball.Valid: assumes every `against` entry is non-negative. The source's reader parses the numbers without checking them, and a negative game count is outside the division's meaning.
- Baseball.CertificateOfElimination: requires the games left among the other teams to total less than `Integer.MAX_VALUE` (`Bounded`), the capacity the source gives the game-to-team edges. Java `int` overflow is not modelled.
- Baseball.IsEliminated: carries the same `Bounded` requirement.
- Lex.CompareTo: a Dafny `char` is a Unicode scalar value, while a Java `char` is a UTF-16 code unit. Outside the Basic Multilingual Plane a character is one `char` here but a surrogate pair in Java, so string lengths, rotations and sort order differ from the source's there.
- `WordNet`, `SAP`, `Outcast`, `PointSET`, `BruteCollinearPoints`, `FastCollinearPoints`, `Permutation` and `IndexMinPQ` are outside the modelled core.

## Findings

| source | as written | input that shows it | evidently intended | confidence | as-written member | corrected member |
|---|---|---|---|---|---|---|
| src/Board.java:79-86 | `isGoal` loops `i < blocks.length - 2`, so the cell before the blank is never checked | the 2-by-2 board 1 2 / 0 3 is reported as the goal | check every cell but the last (`i < blocks.length - 1`) | high, not executed | Board.IsGoalAcceptsUnsolvedBoard | Board.IsGoalFixedExact |
| src/BurrowsWheeler.java:74-81 | `_inverseTransform` reads `r[r.length - 1]` even for empty input, and `_transform` gives `first = -1` for the empty message | the empty message: transform gives (-1, ""), and inverting it throws | the empty text decodes to the empty message | high, not executed | BurrowsWheeler.EmptyMessageFails | BurrowsWheeler.RoundTripOrEmpty |
| src/BoggleSolver.java:192-194 | `put(word)` assigns `root = put(word, 0, root)`, and the recursive `put` returns null when `prefix >= word.length()` | a dictionary "AND", "" leaves an empty trie, so "AND" is no longer valid | an empty word leaves the trie unchanged | high, not executed | Boggle.PutEmptyDiscardsTrie | Boggle.PutWordFixedAdds |
| src/SeamCarver.java:210-225 | `validateSeam` accepts an empty seam when the height is 0, and the method then does `width--` without checking the width | a 1-by-1 picture: `removeHorizontalSeam([0])`, then `removeVerticalSeam([])` twice, leaves width -1 | refuse to remove a seam from a picture of width (or height) zero | medium, not executed | SeamCarver.NarrowPastZero | SeamCarver.RemoveVerticalSeamChecked |
