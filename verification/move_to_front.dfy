/** The move-to-front transform of the Burrows-Wheeler pipeline
    (burrows/MoveToFront.java).  Both directions keep an ordered list of the
    256 byte values, initially in increasing order.  Encoding replaces each
    input byte by its current position in the list; decoding replaces each
    position by the byte found there; both then move that byte to the front.
    Standard input and output become sequences of bytes. */
module MoveToFront {

  /** The alphabet size R. */
  const R: int := 256

  type Byte = x: int | 0 <= x < R

  /** The list holds every byte exactly once. */
  predicate IsPermutation(list: seq<Byte>)
  {
    && |list| == R
    && (forall i, j :: 0 <= i < j < |list| ==> list[i] != list[j])
    && (forall c: Byte :: c in list)
  }

  /** The initial list: byte `i` at position `i`. */
  function Identity(): (list: seq<Byte>)
    ensures |list| == R && forall i :: 0 <= i < R ==> list[i] == i
  {
    seq(R, i requires 0 <= i < R => i as Byte)
  }

  lemma IdentityIsPermutation()
    ensures IsPermutation(Identity())
  {
    var list := Identity();
    forall c: Byte
      ensures c in list
    {
      assert list[c] == c;
    }
  }

  /** Position of `c` in the list: the first, and in a permutation the only, one. */
  function IndexOf(list: seq<Byte>, c: Byte): (i: nat)
    requires c in list
    ensures i < |list| && list[i] == c && c !in list[..i]
  {
    if list[0] == c then 0
    else
      assert list == [list[0]] + list[1..];
      var i := IndexOf(list[1..], c);
      assert list[..i + 1] == [list[0]] + list[1..][..i];
      i + 1
  }

  /** In a list without repetitions the byte at position `i` has index `i`. */
  lemma IndexOfAt(list: seq<Byte>, i: nat)
    requires IsPermutation(list) && i < |list|
    ensures IndexOf(list, list[i]) == i
  {
    var j := IndexOf(list, list[i]);
  }

  /** The list after byte `c` is processed: `c` is at the front, the entries
      that were ahead of it are one place further back, and the entries behind
      it have not moved.  The list stays a permutation. */
  function MoveToFront(list: seq<Byte>, c: Byte): (r: seq<Byte>)
    requires IsPermutation(list)
    ensures |r| == |list| && r[0] == c
    ensures forall k :: 0 < k <= IndexOf(list, c) ==> r[k] == list[k - 1]
    ensures forall k :: IndexOf(list, c) < k < |list| ==> r[k] == list[k]
    ensures IsPermutation(r)
  {
    var i := IndexOf(list, c);
    var r := [c] + list[..i] + list[i + 1..];
    assert forall k :: 0 < k <= i ==> r[k] == list[k - 1];
    assert forall k :: i < k < |list| ==> r[k] == list[k];
    forall d: Byte
      ensures d in r
    {
      var j := IndexOf(list, d);
      if j < i {
        assert r[j + 1] == d;
      } else if j > i {
        assert r[j] == d;
      }
    }
    forall a, b | 0 <= a < b < |r|
      ensures r[a] != r[b]
    {
      if a == 0 {
        if b <= i {
          assert r[b] == list[b - 1] && list[i] == c;
        }
      }
    }
    r
  }

  /** The list update of decode: `System.arraycopy` moves positions `0..i-1`
      one place back, and the byte from position `i` is written at the front. */
  function Shift(list: seq<Byte>, i: Byte): (r: seq<Byte>)
    requires |list| == R
    ensures |r| == R
  {
    [list[i]] + list[..i] + list[i + 1..]
  }

  /** Decoding position `i` moves the same byte to the front as encoding the
      byte found there. */
  lemma ShiftIsMoveToFront(list: seq<Byte>, i: Byte)
    requires IsPermutation(list)
    ensures Shift(list, i) == MoveToFront(list, list[i])
  {
    IndexOfAt(list, i);
  }

  /** Encoding from a given list: each byte becomes its position, then moves
      to the front. */
  function EncodeFrom(list: seq<Byte>, s: seq<Byte>): (r: seq<Byte>)
    requires IsPermutation(list)
    ensures |r| == |s|
    decreases |s|
  {
    if |s| == 0 then []
    else [IndexOf(list, s[0]) as Byte] + EncodeFrom(MoveToFront(list, s[0]), s[1..])
  }

  /** Decoding from a given list: each position becomes the byte there, which
      then moves to the front. */
  function DecodeFrom(list: seq<Byte>, codes: seq<Byte>): (r: seq<Byte>)
    requires |list| == R
    ensures |r| == |codes|
    decreases |codes|
  {
    if |codes| == 0 then []
    else [list[codes[0]]] + DecodeFrom(Shift(list, codes[0]), codes[1..])
  }

  /** encode: the transform of a whole input, from the initial list. */
  function Encode(s: seq<Byte>): (r: seq<Byte>)
    ensures |r| == |s|
  {
    IdentityIsPermutation();
    EncodeFrom(Identity(), s)
  }

  /** decode: the inverse transform of a whole input, from the initial list. */
  function Decode(codes: seq<Byte>): (r: seq<Byte>)
    ensures |r| == |codes|
  {
    DecodeFrom(Identity(), codes)
  }

  lemma {:induction false} DecodeEncodeFrom(list: seq<Byte>, s: seq<Byte>)
    requires IsPermutation(list)
    ensures DecodeFrom(list, EncodeFrom(list, s)) == s
    decreases |s|
  {
    if |s| > 0 {
      var i := IndexOf(list, s[0]) as Byte;
      ShiftIsMoveToFront(list, i);
      DecodeEncodeFrom(MoveToFront(list, s[0]), s[1..]);
    }
  }

  lemma {:induction false} EncodeDecodeFrom(list: seq<Byte>, codes: seq<Byte>)
    requires IsPermutation(list)
    ensures EncodeFrom(list, DecodeFrom(list, codes)) == codes
    decreases |codes|
  {
    if |codes| > 0 {
      IndexOfAt(list, codes[0]);
      ShiftIsMoveToFront(list, codes[0]);
      EncodeDecodeFrom(Shift(list, codes[0]), codes[1..]);
    }
  }

  /** Decoding undoes encoding, for every byte sequence. */
  lemma DecodeEncode(s: seq<Byte>)
    ensures Decode(Encode(s)) == s
  {
    IdentityIsPermutation();
    DecodeEncodeFrom(Identity(), s);
  }

  /** Encoding undoes decoding, for every byte sequence. */
  lemma EncodeDecode(codes: seq<Byte>)
    ensures Encode(Decode(codes)) == codes
  {
    IdentityIsPermutation();
    EncodeDecodeFrom(Identity(), codes);
  }

  // ---------------------------------------------------------------------
  // The two arrays of encode

  /** `ctoi` (byte to index) and `itoc` (index to byte) are inverse
      permutations of the bytes. */
  predicate Inverse(ctoi: seq<Byte>, itoc: seq<Byte>)
  {
    && IsPermutation(itoc) && |ctoi| == R
    && (forall c: Byte :: itoc[ctoi[c]] == c)
    && (forall i :: 0 <= i < R ==> ctoi[itoc[i]] == i)
  }

  /** In the inverse arrays, `ctoi[c]` is the position of `c` in the list. */
  lemma CtoiIsIndex(ctoi: seq<Byte>, itoc: seq<Byte>, c: Byte)
    requires Inverse(ctoi, itoc)
    ensures ctoi[c] == IndexOf(itoc, c)
  {
    IndexOfAt(itoc, ctoi[c]);
  }

  /** The body of encode's read loop after the output write: the inner loop
      moves every entry ahead of `c` one place back, keeping `ctoi` in step,
      and then `c` goes to the front. */
  method Promote(ctoi: seq<Byte>, itoc: seq<Byte>, c: Byte) returns (ctoi': seq<Byte>, itoc': seq<Byte>)
    requires Inverse(ctoi, itoc)
    ensures Inverse(ctoi', itoc') && itoc' == MoveToFront(itoc, c)
  {
    var p := ctoi[c];
    ctoi', itoc' := ctoi, itoc;
    var i := p;
    while i > 0
      invariant 0 <= i <= p && |itoc'| == R && |ctoi'| == R
      invariant forall k :: 0 <= k <= i ==> itoc'[k] == itoc[k]
      invariant forall k :: i < k <= p ==> itoc'[k] == itoc[k - 1]
      invariant forall k :: p < k < R ==> itoc'[k] == itoc[k]
      invariant forall b: Byte :: i <= ctoi[b] < p ==> ctoi'[b] == ctoi[b] + 1
      invariant forall b: Byte :: (ctoi[b] < i || p <= ctoi[b]) ==> ctoi'[b] == ctoi[b]
    {
      var moved := itoc'[i - 1];
      assert ctoi[moved] == i - 1;
      itoc' := itoc'[i := moved];
      ctoi' := ctoi'[moved := i];
      i := i - 1;
    }
    itoc' := itoc'[0 := c];
    ctoi' := ctoi'[c := 0];
    PromotedInverse(ctoi, itoc, c, ctoi', itoc');
  }

  /** The arrays Promote ends with are inverse, and the list is the
      move-to-front of the old one. */
  lemma PromotedInverse(ctoi: seq<Byte>, itoc: seq<Byte>, c: Byte, ctoi': seq<Byte>, itoc': seq<Byte>)
    requires Inverse(ctoi, itoc) && |itoc'| == R && |ctoi'| == R
    requires itoc'[0] == c
    requires forall k :: 0 < k <= ctoi[c] ==> itoc'[k] == itoc[k - 1]
    requires forall k :: ctoi[c] < k < R ==> itoc'[k] == itoc[k]
    requires ctoi'[c] == 0
    requires forall b: Byte :: ctoi[b] < ctoi[c] ==> ctoi'[b] == ctoi[b] + 1
    requires forall b: Byte :: ctoi[b] > ctoi[c] ==> ctoi'[b] == ctoi[b]
    ensures Inverse(ctoi', itoc') && itoc' == MoveToFront(itoc, c)
  {
    CtoiIsIndex(ctoi, itoc, c);
    var m := MoveToFront(itoc, c);
    assert itoc' == m;
    forall b: Byte
      ensures itoc'[ctoi'[b]] == b
    {
      if b != c {
        assert ctoi[b] != ctoi[c];
      }
    }
    forall k | 0 <= k < R
      ensures ctoi'[itoc'[k]] == k
    {
      if 0 < k <= ctoi[c] {
        assert ctoi[itoc[k - 1]] == k - 1;
      } else if k > ctoi[c] {
        assert ctoi[itoc[k]] == k;
      }
    }
  }

  /** encode: writes `ctoi[c]` for each byte `c` read, then promotes `c`. */
  method EncodeLoop(input: seq<Byte>) returns (output: seq<Byte>)
    ensures output == Encode(input)
  {
    IdentityIsPermutation();
    var ctoi := Identity();
    var itoc := Identity();
    output := [];
    var k := 0;
    while k < |input|
      invariant 0 <= k <= |input| && Inverse(ctoi, itoc)
      invariant output + EncodeFrom(itoc, input[k..]) == Encode(input)
    {
      var c := input[k];
      CtoiIsIndex(ctoi, itoc, c);
      assert input[k..] == [c] + input[k + 1..];
      output := output + [ctoi[c]];
      ctoi, itoc := Promote(ctoi, itoc, c);
      k := k + 1;
    }
  }

  /** decode: writes the byte at each position read and moves it to the front. */
  method DecodeLoop(input: seq<Byte>) returns (output: seq<Byte>)
    ensures output == Decode(input)
  {
    var itoc := Identity();
    output := [];
    var k := 0;
    while k < |input|
      invariant 0 <= k <= |input| && |itoc| == R
      invariant output + DecodeFrom(itoc, input[k..]) == Decode(input)
    {
      var i := input[k];
      var c := itoc[i];
      assert input[k..] == [i] + input[k + 1..];
      output := output + [c];
      itoc := [c] + itoc[..i] + itoc[i + 1..];
      k := k + 1;
    }
  }
}
