/**
 * The Boggle solver: word scores, the dictionary as a ternary search trie,
 * the board as a graph of letter cubes joined to their eight neighbours,
 * and the depth-first search that collects the dictionary words the board
 * spells. A cube showing `Q` stands for `QU`. The board (`BoggleBoard`) is a
 * grid of letters here.
 */
module Boggle {
  import opened Wrappers
  import Grid
  import Lex
  import Sorting

  // ---------------------------------------------------------------------------
  // Scoring

  /** Points by word length up to seven letters; eight or more score 11. */
  const SCORES: seq<nat> := [0, 0, 0, 1, 1, 2, 3, 5]

  /** `scoreOf`: a `null` word is an illegal argument; the score depends on the length alone. */
  function ScoreOf(word: Option<string>): (r: Result<nat>)
    ensures r.Err? <==> word.None?
    ensures r.Err? ==> r.error == IllegalArgument
    ensures r.Ok? ==> r.value == if |word.value| < |SCORES| then SCORES[|word.value|] else 11
  {
    if word.None? then Err(IllegalArgument)
    else
      var len := |word.value|;
      if len <= 2 then Ok(0)
      else if len <= 4 then Ok(1)
      else if len <= 5 then Ok(2)
      else if len <= 6 then Ok(3)
      else if len <= 7 then Ok(5)
      else Ok(11)
  }

  /** Longer words never score less, and only words of three or more letters score. */
  lemma ScoreMonotone(a: string, b: string)
    requires |a| <= |b|
    ensures ScoreOf(Some(a)).value <= ScoreOf(Some(b)).value
    ensures ScoreOf(Some(a)).value > 0 <==> |a| > 2
  {
  }

  // ---------------------------------------------------------------------------
  // The dictionary: a ternary search trie

  /**
   * A trie node (`TrieNode`), or `Nil` for `null`: a character, the subtries
   * of smaller and larger characters at the same position, the subtrie of the
   * next position, and the word that ends here, if any.
   */
  datatype Node = Nil | Node(key: char, left: Node, mid: Node, right: Node, value: Option<string>)

  /** The word stored at a node; none at `Nil`. */
  function ValueOf(n: Node): Option<string> {
    if n.Nil? then None else n.value
  }

  /**
   * `getNode`: the node for `word[..|word|]` reached from `node`, matching
   * `word[prefix]` at this level; `Nil` when `prefix` is past the word or the
   * path runs out.
   */
  function GetNode(word: string, prefix: nat, node: Node): (r: Node)
    ensures prefix >= |word| ==> r.Nil?
    ensures r.Node? ==> r.key == word[|word| - 1]
    decreases |word| - prefix, node
  {
    if node.Nil? || prefix >= |word| then Nil
    else if node.key == word[prefix] then
      if prefix == |word| - 1 then node else GetNode(word, prefix + 1, node.mid)
    else if node.key > word[prefix] then GetNode(word, prefix, node.left)
    else GetNode(word, prefix, node.right)
  }

  /**
   * `put(word, prefix, node)`: store `word` along the path of
   * `word[prefix..]`, creating nodes that are missing. At `prefix` past the
   * end it answers `null`.
   */
  function Put(word: string, prefix: nat, node: Node): (r: Node)
    ensures prefix >= |word| <==> r.Nil?
    decreases |word| - prefix, node
  {
    if prefix >= |word| then Nil
    else
      var n := if node.Nil? then Node(word[prefix], Nil, Nil, Nil, None) else node;
      if n.key == word[prefix] then
        if prefix == |word| - 1 then n.(value := Some(word))
        else n.(mid := Put(word, prefix + 1, n.mid))
      else if n.key > word[prefix] then n.(left := Put(word, prefix, n.left))
      else n.(right := Put(word, prefix, n.right))
  }

  /**
   * After `put(w, p, n)`, looking up `v` from position `q` finds `w` exactly
   * when `v[q..]` spells the same as `w[p..]`, and otherwise finds what it
   * found before.
   */
  lemma {:induction false} PutThenGet(w: string, p: nat, n: Node, v: string, q: nat)
    requires p < |w| && q <= |v|
    ensures ValueOf(GetNode(v, q, Put(w, p, n))) == if v[q..] == w[p..] then Some(w) else ValueOf(GetNode(v, q, n))
    decreases |w| - p, n
  {
    var m := Put(w, p, n);
    var here := if n.Nil? then Node(w[p], Nil, Nil, Nil, None) else n;
    if q < |v| {
      assert v[q..][0] == v[q] && w[p..][0] == w[p];
      if here.key == w[p] {
        if v[q] == w[p] && q < |v| - 1 && p < |w| - 1 {
          PutThenGet(w, p + 1, here.mid, v, q + 1);
          assert v[q..] == [v[q]] + v[q + 1..] && w[p..] == [w[p]] + w[p + 1..];
        } else if v[q] == w[p] && (q == |v| - 1 || p == |w| - 1) {
          assert v[q..] == w[p..] <==> q == |v| - 1 && p == |w| - 1;
        }
      } else if here.key > w[p] {
        if v[q] < here.key {
          PutThenGet(w, p, n.left, v, q);
        }
      } else {
        if v[q] > here.key {
          PutThenGet(w, p, n.right, v, q);
        }
      }
    }
  }

  /** `isValid`: the lookup ends at a node holding exactly this word, so only a stored, non-empty word is valid. */
  predicate IsValid(root: Node, word: string): (r: bool)
    ensures r ==> word != [] && word in Values(root)
  {
    var node := GetNode(word, 0, root);
    GetNodeInside(word, 0, root);
    node.Node? && node.value == Some(word)
  }

  /** `DictionaryTree.put(word)` as written: the root becomes `put(word, 0, root)`. */
  function PutWord(root: Node, word: string): (r: Node)
    ensures word == [] <==> r.Nil?
  {
    Put(word, 0, root)
  }

  /** Storing a non-empty word adds exactly that word to the dictionary. */
  lemma PutWordAdds(root: Node, w: string, v: string)
    requires w != []
    ensures IsValid(PutWord(root, w), v) <==> v == w || IsValid(root, v)
  {
    PutThenGet(w, 0, root, v, 0);
    assert v[0..] == v && w[0..] == w;
  }

  /**
   * Storing the empty word empties the whole dictionary: `put(word, 0, root)`
   * answers `null` for it, and that becomes the root.
   */
  lemma PutEmptyDiscardsTrie()
    ensures IsValid(PutWord(Nil, "AND"), "AND")
    ensures !IsValid(PutWord(PutWord(Nil, "AND"), ""), "AND")
  {
    PutWordAdds(Nil, "AND", "AND");
  }

  /** `put(word)` with the empty word skipped, so that it leaves the dictionary alone. */
  function PutWordFixed(root: Node, word: string): (r: Node)
    ensures word == [] ==> r == root
  {
    if word == [] then root else Put(word, 0, root)
  }

  /** With the fix, storing any word adds exactly it, if it is not empty, and keeps everything else. */
  lemma PutWordFixedAdds(root: Node, w: string, v: string)
    ensures IsValid(PutWordFixed(root, w), v) <==> (v == w && w != []) || IsValid(root, v)
  {
    if w != [] {
      PutWordAdds(root, w, v);
    } else if v == [] {
      assert GetNode(v, 0, root).Nil?;
    }
  }

  /** Every word stored anywhere in a trie. */
  function Values(n: Node): set<string> {
    if n.Nil? then {}
    else Values(n.left) + Values(n.mid) + Values(n.right) + if n.value.Some? then {n.value.value} else {}
  }

  /** `getNode` answers a node inside the trie it searched. */
  lemma {:induction false} GetNodeInside(word: string, prefix: nat, node: Node)
    ensures Values(GetNode(word, prefix, node)) <= Values(node)
    decreases |word| - prefix, node
  {
    if node.Node? && prefix < |word| {
      if node.key == word[prefix] {
        if prefix < |word| - 1 {
          GetNodeInside(word, prefix + 1, node.mid);
        }
      } else if node.key > word[prefix] {
        GetNodeInside(word, prefix, node.left);
      } else {
        GetNodeInside(word, prefix, node.right);
      }
    }
  }

  /** `put` stores its word and nothing else. */
  lemma {:induction false} PutValues(word: string, prefix: nat, node: Node)
    ensures Values(Put(word, prefix, node)) <= Values(node) + {word}
    decreases |word| - prefix, node
  {
    if prefix < |word| {
      var n := if node.Nil? then Node(word[prefix], Nil, Nil, Nil, None) else node;
      assert Values(n) == Values(node);
      if n.key == word[prefix] {
        if prefix < |word| - 1 {
          PutValues(word, prefix + 1, n.mid);
        }
      } else if n.key > word[prefix] {
        PutValues(word, prefix, n.left);
      } else {
        PutValues(word, prefix, n.right);
      }
    }
  }

  /** The dictionary built from `words`, one `put` per word in order (with the empty word skipped). */
  function Build(words: seq<string>): (root: Node)
    ensures Values(root) <= set w | w in words
    ensures forall v :: IsValid(root, v) <==> v in words && v != []
  {
    if words == [] then Nil
    else
      var before := Build(words[..|words| - 1]);
      var w := words[|words| - 1];
      PutValues(w, 0, before);
      forall v ensures IsValid(PutWordFixed(before, w), v) <==> v in words && v != [] {
        PutWordFixedAdds(before, w, v);
        assert v in words <==> v in words[..|words| - 1] || v == w by {
          assert words == words[..|words| - 1] + [w];
        }
      }
      assert words == words[..|words| - 1] + [w];
      PutWordFixed(before, w)
  }

  /** The constructor: a `null` dictionary is an illegal argument; otherwise every non-empty word becomes valid, and only those. */
  function New(dictionary: Option<seq<string>>): (r: Result<Node>)
    ensures r.Err? <==> dictionary.None?
    ensures r.Err? ==> r.error == IllegalArgument
    ensures r.Ok? ==> forall v :: IsValid(r.value, v) <==> v in dictionary.value && v != []
    ensures r.Ok? ==> Values(r.value) <= set w | w in dictionary.value
  {
    if dictionary.None? then Err(IllegalArgument) else Ok(Build(dictionary.value))
  }

  // ---------------------------------------------------------------------------
  // The board as a graph

  /** The letters of a `rows` by `cols` board. */
  datatype BoggleBoard = BoggleBoard(rows: nat, cols: nat, letters: seq<seq<char>>)

  ghost predicate ValidBoard(b: BoggleBoard) {
    |b.letters| == b.rows && forall r :: 0 <= r < b.rows ==> |b.letters[r]| == b.cols
  }

  /** `to1D`: the vertex of a cube, row by row; division by the row length gives the cube back. */
  function To1D(row: int, col: int, maxCol: int): (v: int)
    ensures row >= 0 && 0 <= col < maxCol ==> v >= 0 && v / maxCol == row && v % maxCol == col
  {
    if row >= 0 && 0 <= col < maxCol then
      Grid.Unflatten(row, col, maxCol);
      Grid.MulNonNegative(row, maxCol);
      Grid.Flatten(row, col, maxCol)
    else
      Grid.Flatten(row, col, maxCol)
  }

  predicate InBoard(row: int, col: int, maxRow: int, maxCol: int) {
    0 <= row < maxRow && 0 <= col < maxCol
  }

  /** `addIfValid`: the edge to `(row, col)`, only when that cube is on the board. */
  function AddIfValid(row: int, col: int, maxRow: int, maxCol: int): (r: seq<int>)
    ensures forall w :: w in r ==> 0 <= w < maxRow * maxCol
  {
    if InBoard(row, col, maxRow, maxCol) then
      Grid.FlattenInRange(row, col, maxRow, maxCol);
      [To1D(row, col, maxCol)]
    else []
  }

  /** `createEdges`: the adjacency list of `(row, col)`, in the order the eight neighbours are tried. */
  function CreateEdges(row: int, col: int, maxRow: int, maxCol: int): (r: seq<int>)
    ensures forall w :: w in r ==> 0 <= w < maxRow * maxCol
  {
    AddIfValid(row - 1, col - 1, maxRow, maxCol) + AddIfValid(row, col - 1, maxRow, maxCol)
      + AddIfValid(row + 1, col - 1, maxRow, maxCol) + AddIfValid(row - 1, col, maxRow, maxCol)
      + AddIfValid(row + 1, col, maxRow, maxCol) + AddIfValid(row - 1, col + 1, maxRow, maxCol)
      + AddIfValid(row, col + 1, maxRow, maxCol) + AddIfValid(row + 1, col + 1, maxRow, maxCol)
  }

  /** `createGraph`: one adjacency list per cube. */
  function CreateGraph(maxRow: nat, maxCol: nat): (g: seq<seq<int>>)
    ensures |g| == maxRow * maxCol
    ensures EdgesInRange(g)
  {
    var g := seq(maxRow * maxCol, v => if maxCol == 0 then [] else CreateEdges(v / maxCol, v % maxCol, maxRow, maxCol));
    assert forall v, i :: 0 <= v < |g| && 0 <= i < |g[v]| ==> g[v][i] in g[v];
    g
  }

  /** The king's-move neighbours of a cube: a different cube at most one row and one column away. */
  predicate Touching(r1: int, c1: int, r2: int, c2: int) {
    -1 <= r1 - r2 <= 1 && -1 <= c1 - c2 <= 1 && (r1 != r2 || c1 != c2)
  }

  lemma AddIfValidMentions(row: int, col: int, r2: int, c2: int, maxRow: int, maxCol: int)
    requires InBoard(r2, c2, maxRow, maxCol)
    ensures To1D(r2, c2, maxCol) in AddIfValid(row, col, maxRow, maxCol) <==> row == r2 && col == c2
  {
    if InBoard(row, col, maxRow, maxCol) {
      Grid.FlattenInRange(row, col, maxRow, maxCol);
      if To1D(r2, c2, maxCol) == To1D(row, col, maxCol) {
        Grid.FlattenInjective(row, col, r2, c2, maxCol);
      }
    }
  }

  /** Cube `(r2, c2)` is on the list of `(row, col)` exactly when the two touch; every listed vertex is on the board. */
  lemma CreateEdgesAreNeighbours(row: int, col: int, r2: int, c2: int, maxRow: int, maxCol: int)
    requires InBoard(r2, c2, maxRow, maxCol)
    ensures To1D(r2, c2, maxCol) in CreateEdges(row, col, maxRow, maxCol) <==> Touching(row, col, r2, c2)
  {
    AddIfValidMentions(row - 1, col - 1, r2, c2, maxRow, maxCol);
    AddIfValidMentions(row, col - 1, r2, c2, maxRow, maxCol);
    AddIfValidMentions(row + 1, col - 1, r2, c2, maxRow, maxCol);
    AddIfValidMentions(row - 1, col, r2, c2, maxRow, maxCol);
    AddIfValidMentions(row + 1, col, r2, c2, maxRow, maxCol);
    AddIfValidMentions(row - 1, col + 1, r2, c2, maxRow, maxCol);
    AddIfValidMentions(row, col + 1, r2, c2, maxRow, maxCol);
    AddIfValidMentions(row + 1, col + 1, r2, c2, maxRow, maxCol);
  }

  /** Every adjacency list names vertices of the board only. */
  ghost predicate EdgesInRange(g: seq<seq<int>>) {
    forall v, i :: 0 <= v < |g| && 0 <= i < |g[v]| ==> 0 <= g[v][i] < |g|
  }

  /**
   * In the graph of a board, the vertices of two cubes are adjacent exactly
   * when the cubes touch: no cube is its own neighbour, and adjacency goes
   * both ways.
   */
  lemma GraphIsKingMoves(maxRow: nat, maxCol: nat, r1: int, c1: int, r2: int, c2: int)
    requires InBoard(r1, c1, maxRow, maxCol) && InBoard(r2, c2, maxRow, maxCol)
    ensures 0 <= To1D(r1, c1, maxCol) < maxRow * maxCol && 0 <= To1D(r2, c2, maxCol) < maxRow * maxCol
    ensures To1D(r2, c2, maxCol) in CreateGraph(maxRow, maxCol)[To1D(r1, c1, maxCol)] <==> Touching(r1, c1, r2, c2)
    ensures To1D(r1, c1, maxCol) !in CreateGraph(maxRow, maxCol)[To1D(r1, c1, maxCol)]
    ensures To1D(r2, c2, maxCol) in CreateGraph(maxRow, maxCol)[To1D(r1, c1, maxCol)] <==>
              To1D(r1, c1, maxCol) in CreateGraph(maxRow, maxCol)[To1D(r2, c2, maxCol)]
  {
    GraphAt(maxRow, maxCol, r1, c1);
    GraphAt(maxRow, maxCol, r2, c2);
    CreateEdgesAreNeighbours(r1, c1, r2, c2, maxRow, maxCol);
    CreateEdgesAreNeighbours(r2, c2, r1, c1, maxRow, maxCol);
    CreateEdgesAreNeighbours(r1, c1, r1, c1, maxRow, maxCol);
  }

  /** The list at a cube's vertex is the one `createEdges` made for that cube. */
  lemma GraphAt(maxRow: nat, maxCol: nat, row: int, col: int)
    requires InBoard(row, col, maxRow, maxCol)
    ensures 0 <= To1D(row, col, maxCol) < maxRow * maxCol
    ensures CreateGraph(maxRow, maxCol)[To1D(row, col, maxCol)] == CreateEdges(row, col, maxRow, maxCol)
  {
    Grid.FlattenInRange(row, col, maxRow, maxCol);
    Grid.Unflatten(row, col, maxCol);
  }

  // ---------------------------------------------------------------------------
  // The word search

  /** The vertices `0..n-1` of a graph. */
  function Vertices(n: int): (r: set<int>)
    ensures forall i :: i in r <==> 0 <= i < n
    decreases n
  {
    if n <= 0 then {} else Vertices(n - 1) + {n - 1}
  }

  /** `board.getLetter(v / maxCol, v % maxCol)`: the letter on the cube of vertex `v`. */
  function Letter(b: BoggleBoard, v: int): char
    requires ValidBoard(b) && 0 <= v < b.rows * b.cols
  {
    Grid.SplitInRange(v, b.rows, b.cols);
    b.letters[v / b.cols][v % b.cols]
  }

  /** `WordFinder.addIfValid`: the word at the matched node, if it has more than two letters. */
  function Collect(matched: Node): (r: seq<string>)
    ensures forall x :: x in r ==> |x| > 2 && x in Values(matched)
  {
    if matched.Node? && matched.value.Some? && |matched.value.value| > 2 then [matched.value.value] else []
  }

  /** The graph of the board, with the letters to read off it. */
  ghost predicate Searchable(b: BoggleBoard, g: seq<seq<int>>) {
    ValidBoard(b) && |g| == b.rows * b.cols && EdgesInRange(g)
  }

  /**
   * `_findWords(v, node, prefixWord, prefix)`: read the letter at `v`, look
   * the extended prefix up under `node`, collect the word there, and go on to
   * every unvisited neighbour; after a `Q` also try the prefix with `U`
   * appended. `visited` holds the cubes on the current path, `v` among them.
   * The words come out in the order `words.add` sees them.
   */
  function FindFrom(b: BoggleBoard, g: seq<seq<int>>, v: int, node: Node, prefixWord: string, prefix: nat, visited: set<int>): (found: seq<string>)
    requires Searchable(b, g) && 0 <= v < |g| && visited <= Vertices(|g|)
    ensures forall x :: x in found ==> |x| > 2 && x in Values(node)
    decreases Vertices(|g|) - visited, 1
  {
    var c := Letter(b, v);
    var word := prefixWord + [c];
    var matched := GetNode(word, prefix, node);
    var qMatched := if matched.Node? && c == 'Q' then GetNode(word + "U", prefix + 1, matched.mid) else Nil;
    GetNodeInside(word, prefix, node);
    if matched.Node? then
      GetNodeInside(word + "U", prefix + 1, matched.mid);
      Collect(matched) + Explore(b, g, v, 0, matched, qMatched, word, prefix, visited)
    else
      Collect(matched)
  }

  /** The loop over the neighbours of `v` from its `i`-th, with the matches made at `v`. */
  function Explore(b: BoggleBoard, g: seq<seq<int>>, v: int, i: nat, matched: Node, qMatched: Node, word: string, prefix: nat, visited: set<int>): (found: seq<string>)
    requires Searchable(b, g) && 0 <= v < |g| && visited <= Vertices(|g|)
    requires matched.Node? && Values(qMatched) <= Values(matched.mid)
    ensures forall x :: x in found ==> |x| > 2 && x in Values(matched)
    decreases Vertices(|g|) - visited, 0, |g[v]| - i
  {
    if i >= |g[v]| then []
    else
      var w := g[v][i];
      var rest := Explore(b, g, v, i + 1, matched, qMatched, word, prefix, visited);
      if w in visited then rest
      else
        assert w in Vertices(|g|) - visited;
        var viaQu := if qMatched.Node? then FindFrom(b, g, w, qMatched.mid, word + "U", prefix + 2, visited + {w}) else [];
        viaQu + FindFrom(b, g, w, matched.mid, word, prefix + 1, visited + {w}) + rest
  }

  /** `findWords`: a search from every cube in turn, `i` onwards, each starting with only that cube visited. */
  function FindWords(b: BoggleBoard, g: seq<seq<int>>, root: Node, i: nat): (found: seq<string>)
    requires Searchable(b, g)
    ensures forall x :: x in found ==> |x| > 2 && x in Values(root)
    decreases |g| - i
  {
    if i >= |g| then [] else FindFrom(b, g, i, root, "", 0, {i}) + FindWords(b, g, root, i + 1)
  }

  /** Drop the repeats from a sorted list, as collecting into a set does. */
  function Dedup(s: seq<string>): (r: seq<string>)
    requires Sorting.SortedBy(s, Lex.Order())
    ensures forall x :: x in r <==> x in s
    ensures forall i, j :: 0 <= i < j < |r| ==> Lex.CompareTo(r[i], r[j]) < 0
    decreases |s|
  {
    if |s| <= 1 then s
    else
      var rest := Dedup(s[1..]);
      if s[0] == s[1] then rest
      else
        Lex.LeqIsTotalOrder();
        var leq := Lex.Order();
        forall k | 0 <= k < |rest| ensures Lex.CompareTo(s[0], rest[k]) < 0 {
          assert rest[k] in s[1..];
          var j :| 1 <= j < |s| && s[j] == rest[k];
          assert leq(s[0], s[1]) && leq(s[1], s[j]) && leq(s[0], s[j]);
        }
        [s[0]] + rest
  }

  /**
   * `getAllValidWords`: the words the search finds on the board, sorted and
   * without repeats. Every one is a word of the dictionary with more than two
   * letters.
   */
  function GetAllValidWords(b: BoggleBoard, root: Node): (words: seq<string>)
    requires ValidBoard(b)
    ensures forall i, j :: 0 <= i < j < |words| ==> Lex.CompareTo(words[i], words[j]) < 0
    ensures forall x :: x in words <==> x in FindWords(b, CreateGraph(b.rows, b.cols), root, 0)
    ensures forall x :: x in words ==> |x| > 2 && x in Values(root)
  {
    var g := CreateGraph(b.rows, b.cols);
    Dedup(SortWords(FindWords(b, g, root, 0)))
  }

  /** `Collections.sort`: the same words, in `compareTo` order. */
  function SortWords(words: seq<string>): (r: seq<string>)
    ensures Sorting.SortedBy(r, Lex.Order())
    ensures forall x :: x in r <==> x in words
  {
    Lex.LeqIsTotalOrder();
    var sorted := Sorting.SortBy(words, Lex.Order());
    forall x ensures x in sorted <==> x in words {
      assert x in multiset(sorted) <==> x in multiset(words);
    }
    sorted
  }

  /** A solver built from a dictionary reports only dictionary words of three letters or more. */
  lemma SolverReportsDictionaryWords(dictionary: seq<string>, b: BoggleBoard, x: string)
    requires ValidBoard(b) && x in GetAllValidWords(b, New(Some(dictionary)).value)
    ensures x in dictionary && |x| > 2
  {
  }
}
