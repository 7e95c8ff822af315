/** Splitting a byte string into consecutive slices of a fixed size, the
    last slice possibly shorter: the slicing done by `packetize_data`. */
module Chunking {
  import opened Types

  /** Ceiling of `n / size`. */
  function CeilDiv(n: nat, size: nat): nat
    requires size > 0
  {
    (n + size - 1) / size
  }

  /** Python slicing `data[lo:hi]` for non-negative bounds: both bounds are
      clipped to the length of `data`. */
  function PySlice(data: Bytes, lo: nat, hi: nat): (r: Bytes)
    ensures lo <= hi <= |data| ==> r == data[lo..hi]
    ensures lo <= |data| < hi ==> r == data[lo..]
    ensures |data| <= lo || hi <= lo ==> r == []
  {
    var l := Min(lo, |data|);
    var h := Min(hi, |data|);
    if h <= l then [] else data[l..h]
  }

  /** Reference definition of the slices: take at most `size` bytes off the
      front, then slice the rest. */
  function Chunks(data: Bytes, size: nat): seq<Bytes>
    requires size > 0
    decreases |data|
  {
    if |data| == 0 then []
    else
      var m := Min(size, |data|);
      [data[..m]] + Chunks(data[m..], size)
  }

  /** Concatenation of a list of byte strings, in list order. */
  function Flatten(parts: seq<Bytes>): Bytes
  {
    if |parts| == 0 then [] else parts[0] + Flatten(parts[1..])
  }

  lemma CeilDivStep(n: nat, size: nat)
    requires size > 0 && n > size
    ensures CeilDiv(n, size) == CeilDiv(n - size, size) + 1
  {
    var x := n - 1;
    assert n + size - 1 == (x - size + size) + size;
    var q := (x - size + size) / size;
    var r := (x - size + size) % size;
    assert x == q * size + r;
    assert x + size == (q + 1) * size + r;
    DivUnique(x + size, size, q + 1, r);
  }

  lemma DivUnique(x: int, d: int, q: int, r: int)
    requires d > 0 && 0 <= r < d && x == q * d + r
    ensures x / d == q
  {
    var q' := x / d;
    var r' := x % d;
    assert x == q' * d + r';
    if q' > q {
      assert (q' - q) * d == q' * d - q * d;
      MulAtLeast(q' - q, d);
    } else if q' < q {
      assert (q - q') * d == q * d - q' * d;
      MulAtLeast(q - q', d);
    }
  }

  lemma MulAtLeast(a: int, d: int)
    requires a >= 1 && d > 0
    ensures a * d >= d
  {
    assert a * d == (a - 1) * d + d;
  }

  lemma SliceOfSuffix(s: Bytes, m: nat, a: nat, b: nat)
    requires m <= |s| && a <= b <= |s| - m
    ensures s[m..][a..b] == s[m + a .. m + b]
  {
  }

  lemma MulStep(k: int, size: int)
    ensures (k - 1) * size + size == k * size
  {
  }

  /** There are `ceil(|data| / size)` slices. */
  lemma {:induction false} ChunksCount(data: Bytes, size: nat)
    requires size > 0
    ensures |Chunks(data, size)| == CeilDiv(|data|, size)
    decreases |data|
  {
    if |data| == 0 {
    } else if |data| <= size {
      assert CeilDiv(|data|, size) == 1 by {
        DivUnique(|data| + size - 1, size, 1, |data| - 1);
      }
      assert data[|data|..] == [];
    } else {
      ChunksCount(data[size..], size);
      CeilDivStep(|data|, size);
    }
  }

  /** Every slice but the last has exactly `size` bytes; the last has
      between 1 and `size` bytes. */
  lemma {:induction false} ChunksSizes(data: Bytes, size: nat)
    requires size > 0
    ensures var cs := Chunks(data, size);
      && (forall k :: 0 <= k < |cs| - 1 ==> |cs[k]| == size)
      && (|cs| > 0 ==> 0 < |cs[|cs| - 1]| <= size)
    decreases |data|
  {
    if |data| > 0 {
      var m := Min(size, |data|);
      var rest := Chunks(data[m..], size);
      ChunksSizes(data[m..], size);
      assert Chunks(data, size) == [data[..m]] + rest;
      if |data| <= size {
        assert rest == [];
      } else {
        assert |rest| > 0;
      }
    }
  }

  /** Concatenating the slices in order gives back the input. */
  lemma {:induction false} ChunksFlatten(data: Bytes, size: nat)
    requires size > 0
    ensures Flatten(Chunks(data, size)) == data
    decreases |data|
  {
    if |data| > 0 {
      var m := Min(size, |data|);
      var cs := Chunks(data, size);
      assert cs[0] == data[..m] && cs[1..] == Chunks(data[m..], size);
      ChunksFlatten(data[m..], size);
      assert data == data[..m] + data[m..];
    }
  }

  /** `k * size`, by repeated addition, so that the induction below stays linear. */
  function Offset(k: nat, size: nat): nat
  {
    if k == 0 then 0 else Offset(k - 1, size) + size
  }

  lemma {:induction false} OffsetIsProduct(k: nat, size: nat)
    ensures Offset(k, size) == k * size
  {
    if k > 0 {
      OffsetIsProduct(k - 1, size);
      MulStep(k, size);
    }
  }

  lemma ChunksUnfold(data: Bytes, size: nat)
    requires size > 0 && |data| > 0
    ensures var m := Min(size, |data|);
      && |Chunks(data, size)| == 1 + |Chunks(data[m..], size)|
      && Chunks(data, size)[0] == data[..m]
      && forall k :: 0 < k < |Chunks(data, size)| ==> Chunks(data, size)[k] == Chunks(data[m..], size)[k - 1]
  {
  }

  lemma {:induction false} ChunkAtOffset(data: Bytes, size: nat, k: nat)
    requires size > 0 && k < |Chunks(data, size)|
    ensures Offset(k, size) < |data|
    ensures Chunks(data, size)[k] == data[Offset(k, size) .. Min(Offset(k, size) + size, |data|)]
    decreases |data|
  {
    assert |data| > 0;
    var m := Min(size, |data|);
    var rest := data[m..];
    ChunksUnfold(data, size);
    if k > 0 {
      assert |data| > size;
      assert Chunks(data, size)[k] == Chunks(rest, size)[k - 1];
      ChunkAtOffset(rest, size, k - 1);
      var a := Offset(k - 1, size);
      var b := Min(a + size, |rest|);
      assert Offset(k, size) == size + a;
      assert Min(Offset(k, size) + size, |data|) == size + b;
      SliceOfSuffix(data, size, a, b);
    }
  }

  /** Slice `k` is `data[k*size : (k+1)*size]` as Python slicing takes it:
      clipped at the end of the input. */
  lemma ChunkAt(data: Bytes, size: nat, k: nat)
    requires size > 0 && k < |Chunks(data, size)|
    ensures k * size < |data|
    ensures Chunks(data, size)[k] == data[k * size .. Min(k * size + size, |data|)]
  {
    ChunkAtOffset(data, size, k);
    OffsetIsProduct(k, size);
  }
}
