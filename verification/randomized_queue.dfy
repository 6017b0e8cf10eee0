/** The resizing-array randomized queue of Permutation/src/RandomizedQueue.java.
    The array is a sequence of optional items (`None` for a null slot); the
    queue's contents are the items in slots `0..size-1`, as a multiset.  Every
    call to `StdRandom` becomes a nondeterministic choice from the same range. */
module RandomizedQueue {
  import opened Wrappers

  datatype Queue<T> = Queue(arr: seq<Option<T>>, size: int)

  datatype Error = NullArgument | NoSuchElement | ConcurrentModification

  /** The slots below `size` hold items, the slots above are null, and the
      capacity never falls below its initial 2. */
  predicate Valid<T>(q: Queue<T>)
  {
    && 0 <= q.size <= |q.arr| && |q.arr| >= 2
    && (forall k :: 0 <= k < q.size ==> q.arr[k].Some?)
    && (forall k :: q.size <= k < |q.arr| ==> q.arr[k].None?)
  }

  /** The items in slots `0..n-1`, in slot order. */
  function Prefix<T>(arr: seq<Option<T>>, n: nat): (s: seq<T>)
    requires n <= |arr| && forall k :: 0 <= k < n ==> arr[k].Some?
    ensures |s| == n && forall k :: 0 <= k < n ==> arr[k] == Some(s[k])
  {
    seq(n, k requires 0 <= k < n => arr[k].value)
  }

  /** The items of the queue, in slot order. */
  function Contents<T>(q: Queue<T>): (s: seq<T>)
    requires Valid(q)
    ensures |s| == q.size
  {
    Prefix(q.arr, q.size)
  }

  /** The abstract value: the multiset of items held. */
  function Items<T>(q: Queue<T>): (m: multiset<T>)
    requires Valid(q)
    ensures |m| == q.size
  {
    multiset(Contents(q))
  }

  /** new RandomizedQueue(): capacity 2, nothing held. */
  function Empty<T>(): (q: Queue<T>)
    ensures Valid(q) && Items(q) == multiset{} && |q.arr| == 2
  {
    Queue([None, None], 0)
  }

  /** isEmpty(). */
  function IsEmpty<T>(q: Queue<T>): (b: bool)
    requires Valid(q)
    ensures b <==> Items(q) == multiset{}
  {
    q.size == 0
  }

  /** size(): the number of items, which the array always has room for. */
  function Size<T>(q: Queue<T>): (n: nat)
    requires Valid(q)
    ensures n == |Items(q)| && n <= |q.arr|
  {
    q.size
  }

  /** resize: a new array of the given capacity holding the first `size`
      slots; the rest are null. */
  function Resize<T>(q: Queue<T>, capacity: int): (r: Queue<T>)
    requires Valid(q) && q.size <= capacity && capacity >= 2
    ensures Valid(r) && |r.arr| == capacity && r.size == q.size
    ensures Contents(r) == Contents(q)
  {
    Queue(q.arr[..q.size] + seq(capacity - q.size, _ => None), q.size)
  }

  /** enqueue: a null item is rejected; otherwise the array doubles if full
      and the item goes into slot `size`. */
  function Enqueue<T>(q: Queue<T>, item: Option<T>): (r: Result<Queue<T>, Error>)
    requires Valid(q)
    ensures r.Err? <==> item.None?
    ensures r.Err? ==> r.error == NullArgument
    ensures r.Ok? ==> && Valid(r.value) && Items(r.value) == Items(q) + multiset{item.value}
                      && |r.value.arr| == (if q.size == |q.arr| then 2 * q.size else |q.arr|)
  {
    if item.None? then Err(NullArgument)
    else
      var q' := if q.size == |q.arr| then Resize(q, 2 * q.size) else q;
      var r := Queue(q'.arr[q'.size := item], q'.size + 1);
      assert Contents(r) == Contents(q') + [item.value];
      Ok(r)
  }

  /** The body of dequeue once the random slot `index` is drawn: the item
      there is returned, the last item moves into its slot, the vacated slot
      is nulled, and the array halves when at most a quarter full. */
  function Take<T>(q: Queue<T>, index: int): (r: (T, Queue<T>))
    requires Valid(q) && 0 <= index < q.size
    ensures Valid(r.1) && r.1.size == q.size - 1
    ensures r.0 == Contents(q)[index]
    ensures Items(r.1) == Items(q) - multiset{r.0}
    ensures |r.1.arr| == (if 0 < r.1.size <= |q.arr| / 4 then |q.arr| / 2 else |q.arr|)
  {
    var data := q.arr[index].value;
    var size := q.size - 1;
    var arr := q.arr[index := q.arr[size]][size := None];
    var q' := Queue(arr, size);
    TakeItems(q, index, q');
    if size > 0 && size <= |arr| / 4 then (data, Resize(q', |arr| / 2)) else (data, q')
  }

  /** Moving the last item into slot `index` removes one copy of the item
      that was there. */
  lemma TakeItems<T>(q: Queue<T>, index: int, q': Queue<T>)
    requires Valid(q) && 0 <= index < q.size
    requires q' == Queue(q.arr[index := q.arr[q.size - 1]][q.size - 1 := None], q.size - 1)
    ensures Valid(q') && Items(q') == Items(q) - multiset{Contents(q)[index]}
  {
    var s := Contents(q);
    var n := q.size - 1;
    var s' := Contents(q');
    assert s == s[..n] + [s[n]];
    if index < n {
      assert s' == s[..n][index := s[n]];
      assert s[..n] == s[..index] + [s[index]] + s[index + 1..n];
      assert s' == s[..index] + [s[n]] + s[index + 1..n];
    } else {
      assert s' == s[..n];
    }
  }

  /** dequeue: fails on an empty queue; otherwise removes and returns the
      item of a slot chosen at random. */
  method Dequeue<T>(q: Queue<T>) returns (r: Result<(T, Queue<T>), Error>)
    requires Valid(q)
    ensures r.Err? <==> Items(q) == multiset{}
    ensures r.Err? ==> r.error == NoSuchElement
    ensures r.Ok? ==> && Valid(r.value.1) && r.value.0 in Items(q)
                      && Items(r.value.1) == Items(q) - multiset{r.value.0}
                      && |r.value.1.arr| == (if 0 < r.value.1.size <= |q.arr| / 4 then |q.arr| / 2 else |q.arr|)
  {
    if IsEmpty(q) {
      return Err(NoSuchElement);
    }
    var index :| 0 <= index < q.size;
    var t := Take(q, index);
    r := Ok(t);
  }

  /** sample: fails on an empty queue; otherwise returns the item of a slot
      chosen at random, leaving the queue as it is. */
  method Sample<T>(q: Queue<T>) returns (r: Result<T, Error>)
    requires Valid(q)
    ensures r.Err? <==> Items(q) == multiset{}
    ensures r.Err? ==> r.error == NoSuchElement
    ensures r.Ok? ==> r.value in Items(q)
  {
    if IsEmpty(q) {
      return Err(NoSuchElement);
    }
    var index :| 0 <= index < q.size;
    r := Ok(q.arr[index].value);
  }

  /** Swapping two positions keeps the multiset of a sequence. */
  lemma SwapMultiset<T>(s: seq<T>, i: nat, j: nat)
    requires i < |s| && j < |s|
    ensures multiset(s[i := s[j]][j := s[i]]) == multiset(s)
  {
    if i != j {
      var t := s[i := s[j]];
      assert multiset(t) == multiset(s) - multiset{s[i]} + multiset{s[j]};
    }
  }

  /** StdRandom.shuffle: Knuth's shuffle, swapping position `i` with a
      position at or after it chosen at random. */
  method Shuffle<T>(a: seq<T>) returns (b: seq<T>)
    ensures |b| == |a| && multiset(b) == multiset(a)
  {
    b := a;
    var i := 0;
    while i < |b|
      invariant 0 <= i <= |b| && |b| == |a| && multiset(b) == multiset(a)
    {
      var r :| i <= r < |b|;
      SwapMultiset(b, i, r);
      b := b[i := b[r]][r := b[i]];
      i := i + 1;
    }
  }

  // ---------------------------------------------------------------------
  // RandomizedQueueIterator

  /** The iterator: a shuffled snapshot of the items and a position in it. */
  datatype Iter<T> = Iter(data: seq<T>, i: int)

  /** iterator(): a copy of the items, shuffled. */
  method Iterator<T>(q: Queue<T>) returns (it: Iter<T>)
    requires Valid(q)
    ensures it.i == 0 && multiset(it.data) == Items(q)
  {
    var data := Shuffle(Contents(q));
    it := Iter(data, 0);
  }

  /** hasNext(). */
  predicate HasNext<T>(it: Iter<T>)
  {
    it.i != |it.data|
  }

  /** next(), given the queue's current size: fails past the end, then fails
      if the size differs from the snapshot's; otherwise yields the next item. */
  function Next<T>(it: Iter<T>, size: int): (r: Result<(T, Iter<T>), Error>)
    requires 0 <= it.i <= |it.data|
    ensures r.Err? <==> (it.i == |it.data| || |it.data| != size)
    ensures r.Err? ==> r.error == (if it.i == |it.data| then NoSuchElement else ConcurrentModification)
    ensures r.Ok? ==> r.value == (it.data[it.i], Iter(it.data, it.i + 1))
  {
    if !HasNext(it) then Err(NoSuchElement)
    else if |it.data| != size then Err(ConcurrentModification)
    else Ok((it.data[it.i], Iter(it.data, it.i + 1)))
  }

  /** A for-each loop over an unmodified queue yields every item exactly as
      often as it is held, in some order. */
  method Iterate<T>(q: Queue<T>) returns (out: seq<T>)
    requires Valid(q)
    ensures multiset(out) == Items(q)
  {
    var it := Iterator(q);
    out := [];
    while HasNext(it)
      invariant |it.data| == q.size && 0 <= it.i <= |it.data|
      invariant out == it.data[..it.i] && multiset(it.data) == Items(q)
      decreases |it.data| - it.i
    {
      var r := Next(it, q.size);
      out := out + [r.value.0];
      it := r.value.1;
    }
    assert it.data[..it.i] == it.data;
  }
}
