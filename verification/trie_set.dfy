/** The A-Z trie set of the Boggle solver (boggle/TrieSet.java).  Every node
    has 26 child links, a flag saying whether the path to it spells a stored
    string, and `size`, the number of stored strings in its subtree.  A null
    link is `Nil`.  Strings are words over the letters A-Z. */
module TrieSet {
  import opened Wrappers

  /** The alphabet size R. */
  const R: int := 26

  type Letter = c: char | 'A' <= c <= 'Z'

  type Word = seq<Letter>

  /** The child slot of a letter, `c - 'A'`. */
  function Slot(c: Letter): (i: nat)
    ensures i < R
  {
    c as int - 'A' as int
  }

  /** The letter of child slot `i`, `(char) (i + 'A')`. */
  function LetterAt(i: nat): (c: Letter)
    requires i < R
    ensures Slot(c) == i
  {
    ('A' as int + i) as char
  }

  datatype Trie = Nil | Node(next: seq<Trie>, size: int, isString: bool)

  /** The two exceptions of Node.next: `IllegalArgumentException` for a
      character that is not upper case, and `ArrayIndexOutOfBoundsException`
      for an upper-case character outside A-Z, such as 'É'. */
  datatype Error = NotUpperCase | IndexOutOfBounds

  /** `Character.isUpperCase`, a library call: any test that accepts at
      least the letters A-Z. */
  type UpperCaseTest = char -> bool

  predicate AcceptsLetters(isUpperCase: UpperCaseTest)
  {
    forall c: char :: 'A' <= c <= 'Z' ==> isUpperCase(c)
  }

  /** The narrowest such test: exactly the letters A-Z. */
  function AsciiUpperCase(c: char): bool
  {
    'A' <= c <= 'Z'
  }

  /** size(node): zero for a null link. */
  function Size(t: Trie): int
  {
    if t.Nil? then 0 else t.size
  }

  /** The sizes of the children from slot `k` on. */
  function SumSizes(next: seq<Trie>, k: nat): int
    decreases |next| - k
  {
    if k >= |next| then 0 else Size(next[k]) + SumSizes(next, k + 1)
  }

  /** Every node has R links and counts its own flag plus its children's
      sizes. */
  ghost predicate Valid(t: Trie)
    decreases t
  {
    t.Node? ==>
      && |t.next| == R
      && (forall k :: 0 <= k < R ==> Valid(t.next[k]))
      && t.size == (if t.isString then 1 else 0) + SumSizes(t.next, 0)
  }

  /** No node has an empty subtree: delete unlinks such nodes. */
  ghost predicate Pruned(t: Trie)
    decreases t
  {
    t.Node? ==> t.size != 0 && forall k :: 0 <= k < |t.next| ==> Pruned(t.next[k])
  }

  /** A fresh node: no links, no string. */
  function Fresh(): (t: Trie)
    ensures Valid(t) && t.Node? && t.size == 0 && !t.isString
  {
    var next := seq(R, k requires 0 <= k < R => Nil);
    SumNil(next, 0);
    Node(next, 0, false)
  }

  lemma {:induction false} SumNil(next: seq<Trie>, k: nat)
    requires forall j :: 0 <= j < |next| ==> next[j] == Nil
    ensures SumSizes(next, k) == 0
    decreases |next| - k
  {
    if k < |next| {
      SumNil(next, k + 1);
    }
  }

  /** Replacing one child changes the sum by the change of its size. */
  lemma {:induction false} SumUpdate(next: seq<Trie>, i: nat, x: Trie, k: nat)
    requires i < |next|
    ensures SumSizes(next[i := x], k) == SumSizes(next, k) + (if k <= i then Size(x) - Size(next[i]) else 0)
    decreases |next| - k
  {
    if k < |next| {
      SumUpdate(next, i, x, k + 1);
    }
  }

  /** contains, as the walk down the links of `w`. */
  function Has(t: Trie, w: Word): bool
    requires Valid(t)
    decreases |w|
  {
    match t
    case Nil => false
    case Node(next, _, b) => if |w| == 0 then b else Has(next[Slot(w[0])], w[1..])
  }

  /** add(node, data, d): creates missing nodes on the path of `w`, sets the
      flag at its end, and keeps every size on the path up to date. */
  function Add(t: Trie, w: Word): (r: Trie)
    requires Valid(t)
    ensures Valid(r) && r.Node?
    decreases |w|
  {
    var node := if t.Nil? then Fresh() else t;
    if |w| == 0 then
      Node(node.next, if node.isString then node.size else node.size + 1, true)
    else
      var i := Slot(w[0]);
      var child := Add(node.next[i], w[1..]);
      SumUpdate(node.next, i, child, 0);
      Node(node.next[i := child], node.size - Size(node.next[i]) + Size(child), node.isString)
  }

  /** delete(node, data, d): clears the flag at the end of the path of `w`,
      keeps every size on the path up to date, and unlinks every node whose
      subtree is left empty. */
  function Delete(t: Trie, w: Word): (r: Trie)
    requires Valid(t)
    ensures Valid(r) && (r.Node? ==> r.size != 0)
    decreases |w|, 1
  {
    if t.Nil? then Nil
    else
      var node := Unpruned(t, w);
      if node.size != 0 then node else Nil
  }

  /** The node delete builds before it decides whether to unlink it. */
  function Unpruned(t: Trie, w: Word): (node: Trie)
    requires Valid(t) && t.Node?
    ensures Valid(node) && node.Node?
    decreases |w|, 0
  {
    if |w| == 0 then
      Node(t.next, if t.isString then t.size - 1 else t.size, false)
    else
      var i := Slot(w[0]);
      var child := Delete(t.next[i], w[1..]);
      SumUpdate(t.next, i, child, 0);
      Node(t.next[i := child], t.size - Size(t.next[i]) + Size(child), t.isString)
  }

  /** After add, exactly the old strings and `w` are stored. */
  lemma {:induction false} AddHas(t: Trie, w: Word, v: Word)
    requires Valid(t)
    ensures Has(Add(t, w), v) <==> v == w || Has(t, v)
    decreases |w|
  {
    var r := Add(t, w);
    var node := if t.Nil? then Fresh() else t;
    if |w| > 0 && |v| > 0 {
      var i := Slot(w[0]);
      if Slot(v[0]) == i {
        AddHas(node.next[i], w[1..], v[1..]);
        assert v == w <==> v[1..] == w[1..] by {
          if v[1..] == w[1..] {
            assert v == [v[0]] + v[1..] && w == [w[0]] + w[1..];
          }
        }
      } else {
        assert v != w by {
          assert v[0] != w[0];
        }
      }
    }
  }

  /** add counts a new string once and a present one not at all. */
  lemma {:induction false} AddSize(t: Trie, w: Word)
    requires Valid(t)
    ensures Size(Add(t, w)) == Size(t) + (if Has(t, w) then 0 else 1)
    decreases |w|
  {
    if |w| > 0 {
      var node := if t.Nil? then Fresh() else t;
      AddSize(node.next[Slot(w[0])], w[1..]);
    }
  }

  /** Adding a stored string leaves the trie as it was. */
  lemma {:induction false} AddPresent(t: Trie, w: Word)
    requires Valid(t) && Has(t, w)
    ensures Add(t, w) == t
    decreases |w|
  {
    if |w| > 0 {
      var i := Slot(w[0]);
      AddPresent(t.next[i], w[1..]);
      assert t.next[i := t.next[i]] == t.next;
    }
  }

  /** After delete, exactly the old strings other than `w` are stored. */
  lemma {:induction false} DeleteHas(t: Trie, w: Word, v: Word)
    requires Valid(t)
    ensures Has(Delete(t, w), v) <==> v != w && Has(t, v)
    decreases |w|
  {
    if t.Node? {
      var node := Unpruned(t, w);
      if |w| > 0 && |v| > 0 {
        var i := Slot(w[0]);
        if Slot(v[0]) == i {
          DeleteHas(t.next[i], w[1..], v[1..]);
          assert v == w <==> v[1..] == w[1..] by {
            if v[1..] == w[1..] {
              assert v == [v[0]] + v[1..] && w == [w[0]] + w[1..];
            }
          }
        } else {
          assert v != w by {
            assert v[0] != w[0];
          }
        }
      }
      assert Has(node, v) <==> v != w && Has(t, v);
      if Has(node, v) {
        HasPositive(node, v);
      }
    }
  }

  /** delete uncounts a stored string once and an absent one not at all. */
  lemma {:induction false} DeleteSize(t: Trie, w: Word)
    requires Valid(t)
    ensures Size(Delete(t, w)) == Size(t) - (if Has(t, w) then 1 else 0)
    decreases |w|
  {
    if t.Node? && |w| > 0 {
      DeleteSize(t.next[Slot(w[0])], w[1..]);
    }
  }

  /** Deleting an absent string from a pruned trie changes nothing. */
  lemma {:induction false} DeleteAbsent(t: Trie, w: Word)
    requires Valid(t) && Pruned(t) && !Has(t, w)
    ensures Delete(t, w) == t
    decreases |w|
  {
    if t.Node? && |w| > 0 {
      var i := Slot(w[0]);
      DeleteAbsent(t.next[i], w[1..]);
      assert t.next[i := t.next[i]] == t.next;
    }
  }

  /** delete keeps a trie pruned. */
  lemma {:induction false} DeletePruned(t: Trie, w: Word)
    requires Valid(t) && Pruned(t)
    ensures Pruned(Delete(t, w))
    decreases |w|
  {
    if t.Node? && |w| > 0 {
      var i := Slot(w[0]);
      DeletePruned(t.next[i], w[1..]);
      var r := Delete(t, w);
      if r.Node? {
        forall k | 0 <= k < |r.next|
          ensures Pruned(r.next[k])
        {
          if k != i {
            assert r.next[k] == t.next[k];
          }
        }
      }
    }
  }

  /** add keeps a trie pruned: every node on the path holds `w`. */
  lemma {:induction false} AddPruned(t: Trie, w: Word)
    requires Valid(t) && Pruned(t)
    ensures Pruned(Add(t, w))
    decreases |w|
  {
    var r := Add(t, w);
    AddHas(t, w, w);
    HasPositive(r, w);
    if |w| > 0 {
      var node := if t.Nil? then Fresh() else t;
      var i := Slot(w[0]);
      AddPruned(node.next[i], w[1..]);
      forall k | 0 <= k < |r.next|
        ensures Pruned(r.next[k])
      {
        if k != i {
          assert r.next[k] == node.next[k];
        }
      }
    }
  }

  /** A trie holding a string has a positive size. */
  lemma HasPositive(t: Trie, w: Word)
    requires Valid(t) && Has(t, w)
    ensures Size(t) > 0
  {
    HasCollect(t, w);
    CollectSize(t);
  }

  // ---------------------------------------------------------------------
  // collect and the iterator

  /** The words of `ws`, each behind the letter `c`. */
  function Prefix(c: Letter, ws: seq<Word>): (r: seq<Word>)
    ensures |r| == |ws| && forall k :: 0 <= k < |ws| ==> r[k] == [c] + ws[k]
  {
    seq(|ws|, k requires 0 <= k < |ws| => [c] + ws[k])
  }

  /** collect(node, word, queue): the strings of the subtree relative to the
      node, the node's own first and then each child's in slot order. */
  function Collect(t: Trie): seq<Word>
    decreases t, R + 1
  {
    match t
    case Nil => []
    case Node(_, _, b) => (if b then [[]] else []) + CollectFrom(t, 0)
  }

  /** The loop of collect over the children from slot `c` on. */
  function CollectFrom(t: Trie, c: nat): seq<Word>
    requires t.Node?
    decreases t, R - c
  {
    if c >= R || c >= |t.next| then []
    else Prefix(LetterAt(c), Collect(t.next[c])) + CollectFrom(t, c + 1)
  }

  /** Every node's size is the number of strings collect finds below it. */
  lemma {:induction false} CollectSize(t: Trie)
    requires Valid(t)
    ensures Size(t) == |Collect(t)|
    decreases t, R + 1
  {
    if t.Node? {
      CollectFromSize(t, 0);
    }
  }

  lemma {:induction false} CollectFromSize(t: Trie, c: nat)
    requires Valid(t) && t.Node? && c <= R
    ensures SumSizes(t.next, c) == |CollectFrom(t, c)|
    decreases t, R - c
  {
    if c < R {
      CollectSize(t.next[c]);
      CollectFromSize(t, c + 1);
    }
  }

  lemma InPrefix(c: Letter, ws: seq<Word>, w: Word)
    ensures w in Prefix(c, ws) <==> |w| > 0 && w[0] == c && w[1..] in ws
  {
    var p := Prefix(c, ws);
    if w in p {
      var k :| 0 <= k < |p| && p[k] == w;
      assert w[1..] == ws[k];
    }
    if |w| > 0 && w[0] == c && w[1..] in ws {
      var k :| 0 <= k < |ws| && ws[k] == w[1..];
      assert p[k] == w;
    }
  }

  /** A word is collected from slot `c` on exactly when its first letter has
      a slot from `c` on and the rest is collected in that child. */
  lemma {:induction false} InCollectFrom(t: Trie, c: nat, w: Word)
    requires Valid(t) && t.Node? && c <= R
    ensures w in CollectFrom(t, c) <==>
              |w| > 0 && Slot(w[0]) >= c && w[1..] in Collect(t.next[Slot(w[0])])
    decreases R - c
  {
    if c < R {
      var a, b := Prefix(LetterAt(c), Collect(t.next[c])), CollectFrom(t, c + 1);
      assert CollectFrom(t, c) == a + b;
      assert (w in a + b) == (w in a || w in b);
      InPrefix(LetterAt(c), Collect(t.next[c]), w);
      InCollectFrom(t, c + 1, w);
      if |w| > 0 {
        assert (w[0] == LetterAt(c)) == (Slot(w[0]) == c);
      }
    }
  }

  /** contains agrees with the iteration: a string is stored exactly when
      the iterator yields it. */
  lemma {:induction false} HasCollect(t: Trie, w: Word)
    requires Valid(t)
    ensures Has(t, w) <==> w in Collect(t)
    decreases |w|
  {
    if t.Node? {
      InCollectFrom(t, 0, w);
      if |w| > 0 {
        HasCollect(t.next[Slot(w[0])], w[1..]);
      }
    }
  }

  /** `String.compareTo(u, v) < 0` for words over A-Z. */
  predicate Before(u: Word, v: Word)
    decreases |u|
  {
    if |u| == 0 then |v| > 0
    else |v| > 0 && (u[0] < v[0] || (u[0] == v[0] && Before(u[1..], v[1..])))
  }

  /** Strictly increasing, so also free of repetitions. */
  predicate Increasing(ws: seq<Word>)
  {
    forall i, j :: 0 <= i < j < |ws| ==> Before(ws[i], ws[j])
  }

  lemma PrefixIncreasing(c: Letter, ws: seq<Word>)
    requires Increasing(ws)
    ensures Increasing(Prefix(c, ws))
  {
    var p := Prefix(c, ws);
    forall i, j | 0 <= i < j < |p|
      ensures Before(p[i], p[j])
    {
      assert p[i][1..] == ws[i] && p[j][1..] == ws[j];
    }
  }

  lemma ConcatIncreasing(a: seq<Word>, b: seq<Word>)
    requires Increasing(a) && Increasing(b)
    requires forall i, j :: 0 <= i < |a| && 0 <= j < |b| ==> Before(a[i], b[j])
    ensures Increasing(a + b)
  {
    var ab := a + b;
    forall i, j | 0 <= i < j < |ab|
      ensures Before(ab[i], ab[j])
    {
      if j < |a| {
        assert ab[i] == a[i] && ab[j] == a[j];
      } else if i >= |a| {
        assert ab[i] == b[i - |a|] && ab[j] == b[j - |a|];
      } else {
        assert ab[i] == a[i] && ab[j] == b[j - |a|];
      }
    }
  }

  /** The words collected from slot `c` on start with a letter of slot at
      least `c`. */
  lemma {:induction false} CollectFromHeads(t: Trie, c: nat)
    requires Valid(t) && t.Node? && c <= R
    ensures forall k :: 0 <= k < |CollectFrom(t, c)| ==>
              |CollectFrom(t, c)[k]| > 0 && Slot(CollectFrom(t, c)[k][0]) >= c
    decreases R - c
  {
    if c < R {
      CollectFromHeads(t, c + 1);
      var p := Prefix(LetterAt(c), Collect(t.next[c]));
      var q := CollectFrom(t, c + 1);
      var pq: seq<Word> := p + q;
      assert CollectFrom(t, c) == pq;
      forall k | 0 <= k < |pq|
        ensures |pq[k]| > 0 && Slot(pq[k][0]) >= c
      {
        if k < |p| {
          assert pq[k] == p[k];
        } else {
          assert pq[k] == q[k - |p|];
        }
      }
    }
  }

  /** The iterator yields each stored string once, in A-Z order. */
  lemma {:induction false} CollectIncreasing(t: Trie)
    requires Valid(t)
    ensures Increasing(Collect(t))
    decreases t, R + 1
  {
    if t.Node? {
      CollectFromIncreasing(t, 0);
      CollectFromHeads(t, 0);
      if t.isString {
        ConcatIncreasing([[]], CollectFrom(t, 0));
      }
    }
  }

  lemma {:induction false} CollectFromIncreasing(t: Trie, c: nat)
    requires Valid(t) && t.Node? && c <= R
    ensures Increasing(CollectFrom(t, c))
    decreases t, R - c
  {
    if c < R {
      CollectIncreasing(t.next[c]);
      PrefixIncreasing(LetterAt(c), Collect(t.next[c]));
      CollectFromIncreasing(t, c + 1);
      CollectFromHeads(t, c + 1);
      var p := Prefix(LetterAt(c), Collect(t.next[c]));
      var q := CollectFrom(t, c + 1);
      forall i, j | 0 <= i < |p| && 0 <= j < |q|
        ensures Before(p[i], q[j])
      {
        assert Slot(q[j][0]) >= c + 1;
      }
      ConcatIncreasing(p, q);
    }
  }

  // ---------------------------------------------------------------------
  // The public operations

  /** contains: the source's loop down the links. */
  method Contains(t: Trie, w: Word) returns (b: bool)
    requires Valid(t)
    ensures b <==> w in Collect(t)
  {
    var node := t;
    var d := 0;
    while node.Node? && d < |w|
      invariant 0 <= d <= |w| && Valid(node)
      invariant Has(node, w[d..]) == Has(t, w)
      decreases |w| - d
    {
      assert w[d..][1..] == w[d + 1..];
      node := node.next[Slot(w[d])];
      d := d + 1;
    }
    b := node.Node? && node.isString;
    HasCollect(t, w);
  }

  /** size(): the number of stored strings. */
  function SetSize(t: Trie): (n: int)
    requires Valid(t)
    ensures n == |Collect(t)|
  {
    CollectSize(t);
    Size(t)
  }

  /** isEmpty(): no string is stored. */
  function IsEmpty(t: Trie): (b: bool)
    requires Valid(t)
    ensures b <==> Collect(t) == []
  {
    CollectSize(t);
    Size(t) == 0
  }

  /** Node.next(c): the child for an upper-case letter in A-Z; other
      characters throw, as the test and then the array index decide. */
  function Next(t: Trie, c: char, isUpperCase: UpperCaseTest): (r: Result<Trie, Error>)
    requires Valid(t) && t.Node? && AcceptsLetters(isUpperCase)
    ensures r == Err(NotUpperCase) <==> !isUpperCase(c)
    ensures r == Err(IndexOutOfBounds) <==> isUpperCase(c) && !('A' <= c <= 'Z')
    ensures r.Ok? <==> 'A' <= c <= 'Z'
    ensures r.Ok? ==> Valid(r.value) && forall w :: Has(r.value, w) <==> Has(t, [c as Letter] + w)
  {
    if !isUpperCase(c) then Err(NotUpperCase)
    else if 'A' <= c <= 'Z' then
      var x: Letter := c;
      assert forall w: Word :: ([x] + w)[1..] == w;
      Ok(t.next[Slot(c)])
    else Err(IndexOutOfBounds)
  }

  /** Node.isPrefix(): some string is stored in the subtree. */
  function IsPrefix(t: Trie): (b: bool)
    requires Valid(t) && t.Node?
    ensures b <==> Collect(t) != []
  {
    CollectSize(t);
    t.size != 0
  }

  /** The node reached from `t` by following the links of `w`, as repeated
      calls of Node.next do; Nil once a link is missing. */
  function Walk(t: Trie, w: Word): (r: Trie)
    requires Valid(t)
    ensures Valid(r)
    decreases |w|
  {
    if t.Nil? || |w| == 0 then t else Walk(t.next[Slot(w[0])], w[1..])
  }

  /** A string is stored exactly when its walk ends at a flagged node. */
  lemma {:induction false} WalkHas(t: Trie, w: Word)
    requires Valid(t)
    ensures Has(t, w) <==> Walk(t, w).Node? && Walk(t, w).isString
    decreases |w|
  {
    if t.Node? && |w| > 0 {
      WalkHas(t.next[Slot(w[0])], w[1..]);
    }
  }

  /** Walking `u + v` is walking `u`, then `v`. */
  lemma {:induction false} WalkAppend(t: Trie, u: Word, v: Word)
    requires Valid(t)
    ensures Walk(t, u + v) == Walk(Walk(t, u), v)
    decreases |u|
  {
    if |u| == 0 {
      assert u + v == v;
    } else if t.Node? {
      assert (u + v)[0] == u[0] && (u + v)[1..] == u[1..] + v;
      WalkAppend(t.next[Slot(u[0])], u[1..], v);
    } else {
      WalkNil(v);
    }
  }

  lemma WalkNil(v: Word)
    ensures Walk(Nil, v) == Nil
  {
  }
}
