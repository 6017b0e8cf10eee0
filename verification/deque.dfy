/** The doubly linked deque of Permutation/src/Deque.java.  The Java heap of
    nodes becomes a map from node identities to node records, with `unused`
    the next identity `new` hands out; a reference is `Null` or a node
    identity.  The nodes reached from `first` by `next` links spell the
    deque's contents. */
module LinkedDeque {
  import opened Wrappers

  datatype Ref = Null | Ptr(id: nat)

  datatype NodeRec<T> = NodeRec(item: T, next: Ref, prev: Ref)

  datatype Deque<T> = Deque(heap: map<nat, NodeRec<T>>, first: Ref, last: Ref, size: int, unused: nat)

  datatype Error = NullArgument | NoSuchElement

  /** The first `n` nodes reached from `p` by `next` links; it stops early at
      a null or dangling link. */
  function Chain<T>(heap: map<nat, NodeRec<T>>, p: Ref, n: nat): (c: seq<nat>)
    ensures |c| <= n && forall k :: 0 <= k < |c| ==> c[k] in heap
    ensures |c| > 0 ==> p == Ptr(c[0])
    decreases n
  {
    if n == 0 || p.Null? || p.id !in heap then []
    else [p.id] + Chain(heap, heap[p.id].next, n - 1)
  }

  /** The linked structure is a proper doubly linked list of `size` nodes
      between `first` and `last`. */
  ghost predicate Valid<T>(d: Deque<T>)
  {
    d.size >= 0 &&
    var c := Chain(d.heap, d.first, d.size);
    && |c| == d.size
    && (forall id :: id in d.heap ==> id < d.unused)
    && (forall i, j :: 0 <= i < j < |c| ==> c[i] != c[j])
    && (d.size == 0 <==> d.first.Null?) && (d.size == 0 <==> d.last.Null?)
    && (d.size > 0 ==>
          && d.last == Ptr(c[d.size - 1])
          && d.heap[c[d.size - 1]].next.Null?
          && d.heap[c[0]].prev.Null?)
    && (forall k :: 0 < k < |c| ==> d.heap[c[k]].prev == Ptr(c[k - 1]))
  }

  /** The node identities of the list, first to last. */
  function Nodes<T>(d: Deque<T>): (c: seq<nat>)
    requires Valid(d)
    ensures |c| == d.size && forall k :: 0 <= k < |c| ==> c[k] in d.heap
  {
    Chain(d.heap, d.first, d.size)
  }

  /** The abstract contents: the items of the nodes, first to last. */
  function Items<T>(d: Deque<T>): (s: seq<T>)
    requires Valid(d)
    ensures |s| == d.size
  {
    var c := Nodes(d);
    seq(d.size, k requires 0 <= k < d.size => d.heap[c[k]].item)
  }

  /** Changing nodes off the walk, or only `prev` links and items of nodes
      on it, does not change the walk; the last node's `next` may change too. */
  lemma {:induction false} ChainFrame<T>(h: map<nat, NodeRec<T>>, h': map<nat, NodeRec<T>>, p: Ref, n: nat)
    requires |Chain(h, p, n)| == n
    requires forall k :: 0 <= k < n ==> Chain(h, p, n)[k] in h'
    requires forall k :: 0 <= k < n - 1 ==> h'[Chain(h, p, n)[k]].next == h[Chain(h, p, n)[k]].next
    ensures Chain(h', p, n) == Chain(h, p, n)
    decreases n
  {
    if n > 0 {
      var c := Chain(h, p, n);
      var rest := Chain(h, h[p.id].next, n - 1);
      assert c == [p.id] + rest;
      forall k | 0 <= k < n - 1
        ensures rest[k] in h'
        ensures k < n - 2 ==> h'[rest[k]].next == h[rest[k]].next
      {
        assert rest[k] == c[k + 1];
      }
      if n > 1 {
        assert h'[p.id].next == h[p.id].next by {
          assert c[0] == p.id;
        }
      }
      ChainFrame(h, h', h[p.id].next, n - 1);
    }
  }

  /** new Deque(): no nodes. */
  function Empty<T>(): (d: Deque<T>)
    ensures Valid(d) && Items(d) == []
  {
    Deque(map[], Null, Null, 0, 0)
  }

  /** The node structure after addFirst links a new node holding `x` in front. */
  function Prepend<T>(d: Deque<T>, x: T): Deque<T>
    requires Valid(d)
  {
    var f := d.unused;
    var heap := d.heap[f := NodeRec(x, d.first, Null)];
    var heap := if d.size == 0 then heap else heap[d.first.id := heap[d.first.id].(prev := Ptr(f))];
    Deque(heap, Ptr(f), if d.size == 0 then Ptr(f) else d.last, d.size + 1, f + 1)
  }

  lemma PrependValid<T>(d: Deque<T>, x: T)
    requires Valid(d)
    ensures Valid(Prepend(d, x)) && Items(Prepend(d, x)) == [x] + Items(d)
  {
    var r := Prepend(d, x);
    var c := Nodes(d);
    var f := d.unused;
    ChainFrame(d.heap, r.heap, d.first, d.size);
    assert Chain(r.heap, Ptr(f), r.size) == [f] + c;
    var c' := [f] + c;
    forall k | 0 < k < |c'|
      ensures r.heap[c'[k]].prev == Ptr(c'[k - 1])
    {
      if k > 1 {
        assert c'[k] == c[k - 1] && c'[k - 1] == c[k - 2];
      }
    }
  }

  /** addFirst: a null item is rejected; otherwise a new node goes before
      `first`. */
  function AddFirst<T>(d: Deque<T>, item: Option<T>): (r: Result<Deque<T>, Error>)
    requires Valid(d)
    ensures r.Err? <==> item.None?
    ensures r.Err? ==> r.error == NullArgument
    ensures r.Ok? ==> Valid(r.value) && Items(r.value) == [item.value] + Items(d)
  {
    if item.None? then Err(NullArgument)
    else
      PrependValid(d, item.value);
      Ok(Prepend(d, item.value))
  }

  /** The node structure after addLast links a new node holding `x` at the back. */
  function Append<T>(d: Deque<T>, x: T): Deque<T>
    requires Valid(d)
  {
    var f := d.unused;
    var heap := d.heap[f := NodeRec(x, Null, d.last)];
    var heap := if d.size == 0 then heap else heap[d.last.id := heap[d.last.id].(next := Ptr(f))];
    Deque(heap, if d.size == 0 then Ptr(f) else d.first, Ptr(f), d.size + 1, f + 1)
  }

  lemma AppendValid<T>(d: Deque<T>, x: T)
    requires Valid(d)
    ensures Valid(Append(d, x)) && Items(Append(d, x)) == Items(d) + [x]
  {
    var r := Append(d, x);
    var c := Nodes(d);
    var f := d.unused;
    if d.size > 0 {
      ChainFrame(d.heap, r.heap, d.first, d.size);
      ChainSnoc(r.heap, d.first, d.size, f);
    }
    var c' := c + [f];
    assert Chain(r.heap, r.first, r.size) == c';
    forall k | 0 < k < |c'|
      ensures r.heap[c'[k]].prev == Ptr(c'[k - 1])
    {
      if k < |c| {
        assert c'[k] == c[k] && c'[k - 1] == c[k - 1];
      }
    }
  }

  /** addLast: a null item is rejected; otherwise a new node goes after
      `last`. */
  function AddLast<T>(d: Deque<T>, item: Option<T>): (r: Result<Deque<T>, Error>)
    requires Valid(d)
    ensures r.Err? <==> item.None?
    ensures r.Err? ==> r.error == NullArgument
    ensures r.Ok? ==> Valid(r.value) && Items(r.value) == Items(d) + [item.value]
  {
    if item.None? then Err(NullArgument)
    else
      AppendValid(d, item.value);
      Ok(Append(d, item.value))
  }

  /** A walk of `n` nodes whose last node links to `f` extends by `f`. */
  lemma {:induction false} ChainSnoc<T>(h: map<nat, NodeRec<T>>, p: Ref, n: nat, f: nat)
    requires n > 0 && |Chain(h, p, n)| == n && f in h
    requires h[Chain(h, p, n)[n - 1]].next == Ptr(f)
    ensures Chain(h, p, n + 1) == Chain(h, p, n) + [f]
    decreases n
  {
    var c := Chain(h, p, n);
    var q := h[p.id].next;
    if n > 1 {
      var rest := Chain(h, q, n - 1);
      assert c == [p.id] + rest;
      assert rest[n - 2] == c[n - 1];
      ChainSnoc(h, q, n - 1, f);
    } else {
      assert c == [p.id];
    }
  }

  /** The node structure after removeFirst: `first` moves to its successor,
      whose `prev` link is cleared. */
  function DropFirst<T>(d: Deque<T>): Deque<T>
    requires Valid(d) && d.size > 0
  {
    var first := d.heap[d.first.id].next;
    if d.size == 1 then Deque(d.heap, first, Null, 0, d.unused)
    else
      assert Nodes(d) == [d.first.id] + Chain(d.heap, first, d.size - 1);
      Deque(d.heap[first.id := d.heap[first.id].(prev := Null)], first, d.last, d.size - 1, d.unused)
  }

  lemma DropFirstValid<T>(d: Deque<T>)
    requires Valid(d) && d.size > 0
    ensures Valid(DropFirst(d)) && Items(DropFirst(d)) == Items(d)[1..]
  {
    var r := DropFirst(d);
    var c := Nodes(d);
    DropFirstChain(d);
    var rest := Chain(r.heap, r.first, r.size);
    forall k | 0 < k < r.size
      ensures r.heap[rest[k]].prev == Ptr(rest[k - 1])
    {
      assert rest[k] == c[k + 1] && rest[k - 1] == c[k];
    }
  }

  /** After removeFirst the walk is the old one without its head. */
  lemma DropFirstChain<T>(d: Deque<T>)
    requires Valid(d) && d.size > 0
    ensures Chain(DropFirst(d).heap, DropFirst(d).first, d.size - 1) == Nodes(d)[1..]
  {
    var r := DropFirst(d);
    var c := Nodes(d);
    var rest := Chain(d.heap, r.first, r.size);
    assert c == [c[0]] + rest;
    if r.size > 0 {
      ChainFrame(d.heap, r.heap, r.first, r.size);
    }
  }

  /** removeFirst: fails on an empty deque; otherwise returns the first item
      and unlinks its node. */
  function RemoveFirst<T>(d: Deque<T>): (r: Result<(T, Deque<T>), Error>)
    requires Valid(d)
    ensures r.Err? <==> Items(d) == []
    ensures r.Err? ==> r.error == NoSuchElement
    ensures r.Ok? ==> Valid(r.value.1) && r.value.0 == Items(d)[0] && Items(r.value.1) == Items(d)[1..]
  {
    if d.size == 0 then Err(NoSuchElement)
    else
      DropFirstValid(d);
      Ok((d.heap[d.first.id].item, DropFirst(d)))
  }

  /** The node structure after removeLast: `last` moves back along its `prev`
      link, and the new last node's `next` link is cleared. */
  function DropLast<T>(d: Deque<T>): Deque<T>
    requires Valid(d) && d.size > 0
  {
    var last := d.heap[d.last.id].prev;
    if d.size == 1 then Deque(d.heap, Null, last, 0, d.unused)
    else
      assert last == Ptr(Nodes(d)[d.size - 2]);
      Deque(d.heap[last.id := d.heap[last.id].(next := Null)], d.first, last, d.size - 1, d.unused)
  }

  lemma DropLastValid<T>(d: Deque<T>)
    requires Valid(d) && d.size > 0
    ensures Valid(DropLast(d)) && Items(DropLast(d)) == Items(d)[..d.size - 1]
  {
    var r := DropLast(d);
    var c := Nodes(d);
    if r.size > 0 {
      ChainPrefix(d.heap, d.first, d.size, r.size);
      var init := Chain(d.heap, d.first, r.size);
      assert init == c[..r.size];
      forall k | 0 <= k < r.size - 1
        ensures r.heap[init[k]].next == d.heap[init[k]].next
      {
        assert init[k] != c[r.size - 1];
      }
      ChainFrame(d.heap, r.heap, d.first, r.size);
    }
  }

  /** removeLast: fails on an empty deque; otherwise returns the last item
      and unlinks its node, following the `prev` link. */
  function RemoveLast<T>(d: Deque<T>): (r: Result<(T, Deque<T>), Error>)
    requires Valid(d)
    ensures r.Err? <==> Items(d) == []
    ensures r.Err? ==> r.error == NoSuchElement
    ensures r.Ok? ==> Valid(r.value.1) && r.value.0 == Items(d)[|Items(d)| - 1]
                      && Items(r.value.1) == Items(d)[..|Items(d)| - 1]
  {
    if d.size == 0 then Err(NoSuchElement)
    else
      DropLastValid(d);
      Ok((d.heap[d.last.id].item, DropLast(d)))
  }

  /** The first `m` nodes of a walk are the walk of `m` steps. */
  lemma {:induction false} ChainPrefix<T>(h: map<nat, NodeRec<T>>, p: Ref, n: nat, m: nat)
    requires m <= n && |Chain(h, p, n)| == n
    ensures Chain(h, p, m) == Chain(h, p, n)[..m]
    decreases m
  {
    if m > 0 {
      var c := Chain(h, p, n);
      assert c == [p.id] + Chain(h, h[p.id].next, n - 1);
      ChainPrefix(h, h[p.id].next, n - 1, m - 1);
    }
  }

  /** size(). */
  function Size<T>(d: Deque<T>): (n: nat)
    requires Valid(d)
    ensures n == |Items(d)|
  {
    d.size
  }

  /** isEmpty(). */
  function IsEmpty<T>(d: Deque<T>): (b: bool)
    requires Valid(d)
    ensures b <==> Items(d) == []
  {
    d.size == 0
  }

  // ---------------------------------------------------------------------
  // DequeIterator

  /** hasNext(). */
  predicate HasNext(elem: Ref)
  {
    elem.Ptr?
  }

  /** next(): the item of the current node, and the iterator moved on; fails
      past the end. */
  function Next<T>(d: Deque<T>, elem: Ref): (r: Result<(T, Ref), Error>)
    requires Valid(d) && (elem.Ptr? ==> elem.id in d.heap)
    ensures r.Err? <==> !HasNext(elem)
    ensures r.Err? ==> r.error == NoSuchElement
    ensures r.Ok? ==> r.value == (d.heap[elem.id].item, d.heap[elem.id].next)
  {
    if !HasNext(elem) then Err(NoSuchElement)
    else Ok((d.heap[elem.id].item, d.heap[elem.id].next))
  }

  /** A for-each loop over the deque: the iterator starts at `first` and
      yields the items first to last. */
  method Iterate<T>(d: Deque<T>) returns (out: seq<T>)
    requires Valid(d)
    ensures out == Items(d)
  {
    var c := Nodes(d);
    var items := Items(d);
    var elem := d.first;
    out := [];
    var k := 0;
    while HasNext(elem)
      invariant 0 <= k <= d.size && out == items[..k]
      invariant if k < d.size then elem == Ptr(c[k]) else elem.Null?
      decreases d.size - k
    {
      var r := Next(d, elem);
      if k + 1 < d.size {
        ChainPrefix(d.heap, d.first, d.size, k + 2);
        ChainStep(d.heap, d.first, d.size, k);
      }
      assert items[..k + 1] == items[..k] + [items[k]];
      out := out + [r.value.0];
      elem := r.value.1;
      k := k + 1;
    }
  }

  /** Following `next` from the `k`-th node of a walk reaches the next one. */
  lemma {:induction false} ChainStep<T>(h: map<nat, NodeRec<T>>, p: Ref, n: nat, k: nat)
    requires k + 1 < n && |Chain(h, p, n)| == n
    ensures h[Chain(h, p, n)[k]].next == Ptr(Chain(h, p, n)[k + 1])
    decreases k
  {
    var c := Chain(h, p, n);
    var rest := Chain(h, h[p.id].next, n - 1);
    assert c == [p.id] + rest;
    if k > 0 {
      ChainStep(h, h[p.id].next, n - 1, k - 1);
    }
  }
}
