/** The Boggle solver (boggle/BoggleSolver.java): a depth-first search over
    the board that extends a word one cell at a time, follows the dictionary
    trie alongside it and stops as soon as no stored word has the current
    prefix.  A cell showing `Q` reads as "QU".  Found words are collected in
    a second trie set. */
module Boggle {
  import opened TrieSet

  /** The letters of a BoggleBoard, row by row. */
  datatype BoggleBoard = BoggleBoard(rows: nat, cols: nat, letters: seq<seq<Letter>>)

  ghost predicate WellFormed(b: BoggleBoard)
  {
    |b.letters| == b.rows && forall i :: 0 <= i < b.rows ==> |b.letters[i]| == b.cols
  }

  type Cell = (int, int)

  /** isValid(row, col). */
  predicate InBounds(b: BoggleBoard, row: int, col: int)
  {
    0 <= row < b.rows && 0 <= col < b.cols
  }

  function LetterOf(b: BoggleBoard, c: Cell): Letter
    requires WellFormed(b) && InBounds(b, c.0, c.1)
  {
    b.letters[c.0][c.1]
  }

  /** What a cell contributes to a word: "QU" for `Q`, else its letter. */
  function Spell(c: Letter): (y: Word)
    ensures 1 <= |y| <= 2 && y[0] == c
  {
    if c == 'Q' then ['Q', 'U'] else [c]
  }

  predicate Adjacent(a: Cell, c: Cell)
  {
    -1 <= a.0 - c.0 <= 1 && -1 <= a.1 - c.1 <= 1
  }

  /** A non-empty sequence of distinct in-bounds cells, each 8-adjacent to
      the one before. */
  ghost predicate IsPath(b: BoggleBoard, p: seq<Cell>)
  {
    && |p| > 0
    && (forall k :: 0 <= k < |p| ==> InBounds(b, p[k].0, p[k].1))
    && (forall k, l :: 0 <= k < l < |p| ==> p[k] != p[l])
    && (forall k :: 0 < k < |p| ==> Adjacent(p[k - 1], p[k]))
  }

  /** The word a path spells. */
  function Spelled(b: BoggleBoard, p: seq<Cell>): Word
    requires WellFormed(b) && forall k :: 0 <= k < |p| ==> InBounds(b, p[k].0, p[k].1)
  {
    if |p| == 0 then [] else Spelled(b, p[..|p| - 1]) + Spell(LetterOf(b, p[|p| - 1]))
  }

  ghost predicate Spellable(b: BoggleBoard, w: Word)
    requires WellFormed(b)
  {
    exists p :: IsPath(b, p) && Spelled(b, p) == w
  }

  /** Every string of `found` is a stored word of at least three letters
      that some path spells. */
  ghost predicate Sound(dict: Trie, b: BoggleBoard, found: Trie)
    requires Valid(dict) && Valid(found) && WellFormed(b)
  {
    forall w :: Has(found, w) ==> Has(dict, w) && |w| >= 3 && Spellable(b, w)
  }

  /** `grid` is a rows-by-cols flag matrix marking exactly the cells of `p`. */
  ghost predicate Marked(b: BoggleBoard, grid: seq<seq<bool>>, p: seq<Cell>)
  {
    && |grid| == b.rows && (forall i :: 0 <= i < b.rows ==> |grid[i]| == b.cols)
    && forall i, j :: 0 <= i < b.rows && 0 <= j < b.cols ==> (grid[i][j] <==> (i, j) in p)
  }

  ghost function Cells(p: seq<Cell>): set<Cell>
  {
    set k | 0 <= k < |p| :: p[k]
  }

  ghost function AllCells(b: BoggleBoard): set<Cell>
  {
    set i, j | 0 <= i < b.rows && 0 <= j < b.cols :: (i, j)
  }

  /** Adding the word a path spells keeps `found` sound. */
  lemma AddSound(dict: Trie, b: BoggleBoard, found: Trie, p: seq<Cell>, word: Word)
    requires Valid(dict) && Valid(found) && WellFormed(b) && Sound(dict, b, found)
    requires IsPath(b, p) && Spelled(b, p) == word && Has(dict, word) && |word| >= 3
    ensures Sound(dict, b, Add(found, word))
  {
    forall w | Has(Add(found, word), w)
      ensures Has(dict, w) && |w| >= 3 && Spellable(b, w)
    {
      AddHas(found, word, w);
    }
  }

  /** Stepping from the end of a path to a free neighbour: the longer path
      spells the word with the neighbour's letters behind it, and the trie
      walk follows. */
  lemma Extend(dict: Trie, b: BoggleBoard, p: seq<Cell>, word: Word, node: Trie, i: int, j: int, y: Word)
    requires Valid(dict) && WellFormed(b) && IsPath(b, p) && Spelled(b, p) == word
    requires InBounds(b, i, j) && (i, j) !in p && Adjacent(p[|p| - 1], (i, j))
    requires y == Spell(LetterOf(b, (i, j))) && node == Walk(dict, word)
    ensures IsPath(b, p + [(i, j)]) && Spelled(b, p + [(i, j)]) == word + y
    ensures Walk(dict, word + y) == Walk(node, y)
    ensures (p + [(i, j)])[..|p|] == p
    ensures Cells(p + [(i, j)]) == Cells(p) + {(i, j)} && (i, j) !in Cells(p)
  {
    var q := p + [(i, j)];
    assert q[..|q| - 1] == p;
    WalkAppend(dict, word, y);
    assert Cells(q) == Cells(p) + {(i, j)} by {
      forall c | c in Cells(q)
        ensures c in Cells(p) + {(i, j)}
      {
        var k :| 0 <= k < |q| && q[k] == c;
        if k < |p| {
          assert p[k] == c;
        }
      }
      forall c | c in Cells(p)
        ensures c in Cells(q)
      {
        var k :| 0 <= k < |p| && p[k] == c;
        assert q[k] == c;
      }
      assert q[|p|] == (i, j);
    }
  }

  /** Reading a cell's letter `c` from `node`: one call of Node.next, and a
      second one for the `U` behind a `Q`; a `Q` without a link is skipped.
      The node reached is the walk of what the cell spells. */
  method ReadCell(node: Trie, c: Letter) returns (x: Trie, y: Word, skip: bool)
    requires Valid(node) && node.Node?
    ensures y == Spell(c) && (if skip then Walk(node, y) == Nil else x == Walk(node, y))
  {
    x := Next(node, c, AsciiUpperCase).value;
    y := [c];
    skip := false;
    if c == 'Q' {
      if x.Node? {
        x := Next(x, 'U', AsciiUpperCase).value;
        y := y + ['U'];
        assert y[1..] == ['U'] && y[1..][1..] == [];
      } else {
        skip := true;
        assert y + ['U'] == ['Q', 'U'];
        assert ['Q', 'U'][1..] == ['U'];
        WalkNil(['U']);
        y := y + ['U'];
      }
    } else {
      assert y[1..] == [];
    }
  }

  /** dfs(node, row, col, word): `node` is the dictionary node reached by
      `word`, the word of `path`, which ends at (row, col); `onStack` marks the
      path's other cells.  Returns the grown `found` and the flags, which are
      restored. */
  method Dfs(dict: Trie, b: BoggleBoard, node: Trie, row: int, col: int, word: Word,
             onStack: seq<seq<bool>>, found: Trie, ghost path: seq<Cell>)
    returns (found': Trie, onStack': seq<seq<bool>>)
    requires Valid(dict) && Valid(found) && WellFormed(b) && Sound(dict, b, found)
    requires IsPath(b, path) && path[|path| - 1] == (row, col) && Spelled(b, path) == word
    requires node == Walk(dict, word) && Marked(b, onStack, path[..|path| - 1])
    ensures Valid(found') && Sound(dict, b, found') && onStack' == onStack
    decreases AllCells(b) - Cells(path), 2
  {
    if node.Nil? {
      return found, onStack;
    }
    var marked := onStack[row := onStack[row][col := true]];
    MarkPath(b, onStack, path, row, col, marked);
    found' := found;
    if node.isString && |word| >= 3 {
      WalkHas(dict, word);
      AddSound(dict, b, found', path, word);
      found' := Add(found', word);
    }
    found', marked := Neighbours(dict, b, node, row, col, word, marked, found', path);
    onStack' := marked[row := marked[row][col := false]];
  }

  /** The neighbour loops of dfs, rows `row - 1` to `row + 1`, columns
      `col - 1` to `col + 1`. */
  method Neighbours(dict: Trie, b: BoggleBoard, node: Trie, row: int, col: int, word: Word,
                    marked: seq<seq<bool>>, found: Trie, ghost path: seq<Cell>)
    returns (found': Trie, marked': seq<seq<bool>>)
    requires Valid(dict) && Valid(found) && WellFormed(b) && Sound(dict, b, found)
    requires IsPath(b, path) && path[|path| - 1] == (row, col) && Spelled(b, path) == word
    requires node == Walk(dict, word) && node.Node? && Marked(b, marked, path)
    ensures Valid(found') && Sound(dict, b, found') && marked' == marked
    decreases AllCells(b) - Cells(path), 1
  {
    found', marked' := found, marked;
    var i := row - 1;
    while i <= row + 1
      invariant Valid(found') && Sound(dict, b, found') && marked' == marked
    {
      var j := col - 1;
      while j <= col + 1
        invariant Valid(found') && Sound(dict, b, found') && marked' == marked
      {
        found', marked' := Visit(dict, b, node, row, col, word, marked', found', path, i, j);
        j := j + 1;
      }
      i := i + 1;
    }
  }

  /** `onStack[row][col] = true`: the last cell of the path joins the marks. */
  lemma MarkPath(b: BoggleBoard, onStack: seq<seq<bool>>, path: seq<Cell>, row: int, col: int, marked: seq<seq<bool>>)
    requires WellFormed(b) && IsPath(b, path) && path[|path| - 1] == (row, col)
    requires Marked(b, onStack, path[..|path| - 1])
    requires marked == onStack[row := onStack[row][col := true]]
    ensures Marked(b, marked, path) && !onStack[row][col]
    ensures marked[row := marked[row][col := false]] == onStack
  {
    assert path == path[..|path| - 1] + [(row, col)];
    assert marked[row := marked[row][col := false]][row] == onStack[row];
  }

  /** One pass of dfs's neighbour loop: an in-bounds neighbour that is not on
      the stack is read and searched from, with the word builder extended by
      what the cell spells and cut back afterwards. */
  method Visit(dict: Trie, b: BoggleBoard, node: Trie, row: int, col: int, word: Word,
               marked: seq<seq<bool>>, found: Trie, ghost path: seq<Cell>, i: int, j: int)
    returns (found': Trie, marked': seq<seq<bool>>)
    requires Valid(dict) && Valid(found) && WellFormed(b) && Sound(dict, b, found)
    requires IsPath(b, path) && path[|path| - 1] == (row, col) && Spelled(b, path) == word
    requires node == Walk(dict, word) && node.Node? && Marked(b, marked, path)
    requires row - 1 <= i <= row + 1 && col - 1 <= j <= col + 1
    ensures Valid(found') && Sound(dict, b, found') && marked' == marked
    decreases AllCells(b) - Cells(path), 0
  {
    found', marked' := found, marked;
    if !(i == row && j == col) && InBounds(b, i, j) && !marked[i][j] {
      var x, y, skip := ReadCell(node, b.letters[i][j]);
      if !skip {
        Extend(dict, b, path, word, node, i, j, y);
        assert (i, j) in AllCells(b);
        var builder := word + y;
        found', marked' := Dfs(dict, b, x, i, j, builder, marked, found', path + [(i, j)]);
        builder := builder[..|builder| - |y|];
        assert builder == word;
      }
    }
  }

  /** getAllValidWords: a search from every cell, with no previous cells on
      the stack.  Every reported word is a dictionary word of at least three
      letters that a path of the board spells, and the words are reported
      once each, in A-Z order. */
  method GetAllValidWords(dict: Trie, b: BoggleBoard) returns (found: Trie)
    requires Valid(dict) && WellFormed(b)
    ensures Valid(found)
    ensures forall w :: w in Collect(found) ==> w in Collect(dict) && |w| >= 3 && Spellable(b, w)
    ensures Increasing(Collect(found))
  {
    var onStack := seq(b.rows, i => seq(b.cols, j => false));
    found := Nil;
    if dict.Node? {
      var i := 0;
      while i < b.rows
        invariant Valid(found) && Sound(dict, b, found) && Marked(b, onStack, [])
      {
        var j := 0;
        while j < b.cols
          invariant Valid(found) && Sound(dict, b, found) && Marked(b, onStack, [])
        {
          found := Start(dict, b, onStack, found, i, j);
          j := j + 1;
        }
        i := i + 1;
      }
    }
    Reported(dict, b, found);
  }

  /** The search from cell (i, j) at the top level. */
  method Start(dict: Trie, b: BoggleBoard, onStack: seq<seq<bool>>, found: Trie, i: int, j: int) returns (found': Trie)
    requires Valid(dict) && dict.Node? && Valid(found) && WellFormed(b) && Sound(dict, b, found)
    requires InBounds(b, i, j) && Marked(b, onStack, [])
    ensures Valid(found') && Sound(dict, b, found')
  {
    found' := found;
    var node, y, skip := ReadCell(dict, b.letters[i][j]);
    if !skip {
      ghost var path := [(i, j)];
      assert Spelled(b, path) == y by {
        assert path[..0] == [];
      }
      var onStack';
      found', onStack' := Dfs(dict, b, node, i, j, y, onStack, found', path);
    }
  }

  /** The words of a sound `found`, as its iterator yields them. */
  lemma Reported(dict: Trie, b: BoggleBoard, found: Trie)
    requires Valid(dict) && Valid(found) && WellFormed(b) && Sound(dict, b, found)
    ensures forall w :: w in Collect(found) ==> w in Collect(dict) && |w| >= 3 && Spellable(b, w)
    ensures Increasing(Collect(found))
  {
    forall w | w in Collect(found)
      ensures w in Collect(dict) && |w| >= 3 && Spellable(b, w)
    {
      HasCollect(found, w);
      HasCollect(dict, w);
    }
    CollectIncreasing(found);
  }

  /** The constructor: the dictionary trie holds exactly the given words. */
  function Build(dictionary: seq<Word>): (dict: Trie)
    ensures Valid(dict) && Pruned(dict)
  {
    if |dictionary| == 0 then Nil
    else
      var t := Build(dictionary[..|dictionary| - 1]);
      AddPruned(t, dictionary[|dictionary| - 1]);
      Add(t, dictionary[|dictionary| - 1])
  }

  lemma {:induction false} BuildHas(dictionary: seq<Word>, w: Word)
    ensures Has(Build(dictionary), w) <==> w in dictionary
  {
    if |dictionary| > 0 {
      var init := dictionary[..|dictionary| - 1];
      BuildHas(init, w);
      AddHas(Build(init), dictionary[|dictionary| - 1], w);
      assert dictionary == init + [dictionary[|dictionary| - 1]];
    }
  }

  /** The score table by word length. */
  function Points(n: nat): (p: nat)
    ensures p == 0 <==> n < 3
  {
    if n <= 2 then 0
    else if n <= 4 then 1
    else if n == 5 then 2
    else if n == 6 then 3
    else if n == 7 then 5
    else 11
  }

  /** Longer words never score less. */
  lemma PointsMonotone(m: nat, n: nat)
    requires m <= n
    ensures Points(m) <= Points(n)
  {
  }

  /** scoreOf: nothing for a word outside the dictionary, else its points. */
  function ScoreOf(dict: Trie, w: Word): (score: nat)
    requires Valid(dict)
    ensures w !in Collect(dict) ==> score == 0
    ensures w in Collect(dict) ==> score == Points(|w|)
  {
    HasCollect(dict, w);
    if !Has(dict, w) then 0 else Points(|w|)
  }
}
