/** Fixed-width unsigned numbers and their bit strings, most significant bit first.
    Nothing here knows about Base64: it is the vocabulary in which the codec is specified. */
module Bits {

  function Pow2(k: nat): (p: nat)
    ensures p > 0
  {
    if k == 0 then 1 else 2 * Pow2(k - 1)
  }

  /** The `w` low bits of `v`. */
  function ToBits(v: nat, w: nat): (b: seq<bool>)
    ensures |b| == w
  {
    if w == 0 then [] else ToBits(v / 2, w - 1) + [v % 2 == 1]
  }

  function FromBits(b: seq<bool>): (v: nat)
    ensures v < Pow2(|b|)
  {
    if b == [] then 0
    else 2 * FromBits(b[..|b| - 1]) + (if b[|b| - 1] then 1 else 0)
  }

  function Repeat<T>(v: T, n: nat): (s: seq<T>)
    ensures |s| == n && forall i :: 0 <= i < n ==> s[i] == v
  {
    seq(n, _ => v)
  }

  function Zeros(n: nat): seq<bool> {
    Repeat(false, n)
  }

  lemma {:induction false} FromToBits(v: nat, w: nat)
    requires v < Pow2(w)
    ensures FromBits(ToBits(v, w)) == v
  {
    if w > 0 {
      FromToBits(v / 2, w - 1);
      assert ToBits(v, w)[..w - 1] == ToBits(v / 2, w - 1);
    }
  }

  lemma {:induction false} ToFromBits(b: seq<bool>)
    ensures ToBits(FromBits(b), |b|) == b
  {
    if b != [] {
      ToFromBits(b[..|b| - 1]);
    }
  }

  lemma Halves(s: nat, lo: nat)
    ensures (2 * s + lo) / 2 == s + lo / 2 && (2 * s + lo) % 2 == lo % 2
  {
  }

  lemma Doubles(h: nat, p: nat)
    ensures h * (2 * p) == 2 * (h * p)
  {
  }

  /** Shifting `hi` left by `k` and adding a `k`-bit number is concatenation of bit strings. */
  lemma {:induction false} ToBitsConcat(hi: nat, m: nat, lo: nat, k: nat, t: nat)
    requires lo < Pow2(k) && t == hi * Pow2(k) + lo
    ensures ToBits(t, m + k) == ToBits(hi, m) + ToBits(lo, k)
    decreases k
  {
    if k > 0 {
      var shifted := hi * Pow2(k - 1);
      Doubles(hi, Pow2(k - 1));
      Halves(shifted, lo);
      ToBitsConcat(hi, m, lo / 2, k - 1, shifted + lo / 2);
      assert ToBits(t, m + k) == ToBits(t / 2, m + k - 1) + [t % 2 == 1];
      assert ToBits(lo, k) == ToBits(lo / 2, k - 1) + [lo % 2 == 1];
    }
  }

  lemma {:induction false} ToBitsZero(w: nat)
    ensures ToBits(0, w) == Zeros(w)
  {
    if w > 0 {
      ToBitsZero(w - 1);
    }
  }

  lemma OneMore(n: nat, w: nat)
    requires n > 0
    ensures n * w == w + (n - 1) * w && (n - 1) * w >= 0
  {
  }

  /** The bits of a run of `w`-bit numbers, in order. */
  function Flatten(vs: seq<nat>, w: nat): seq<bool> {
    if vs == [] then [] else ToBits(vs[0], w) + Flatten(vs[1..], w)
  }

  lemma {:induction false} FlattenLength(vs: seq<nat>, w: nat)
    ensures |Flatten(vs, w)| == |vs| * w
  {
    if vs != [] {
      FlattenLength(vs[1..], w);
      OneMore(|vs|, w);
    }
  }

  /** A bit string cut into `n` numbers of `w` bits each. */
  function Chunks(b: seq<bool>, w: nat, n: nat): (vs: seq<nat>)
    requires |b| == n * w
    ensures |vs| == n
    ensures forall i :: 0 <= i < n ==> vs[i] < Pow2(w)
    decreases n
  {
    if n == 0 then []
    else
      OneMore(n, w);
      [FromBits(b[..w])] + Chunks(b[w..], w, n - 1)
  }

  lemma FlattenCons(v: nat, vs: seq<nat>, w: nat)
    ensures Flatten([v] + vs, w) == ToBits(v, w) + Flatten(vs, w)
  {
    assert ([v] + vs)[1..] == vs;
  }

  lemma {:induction false} FlattenConcat(x: seq<nat>, y: seq<nat>, w: nat)
    ensures Flatten(x + y, w) == Flatten(x, w) + Flatten(y, w)
  {
    hide ToBits, FromBits, Pow2;
    if x == [] {
      assert x + y == y;
    } else {
      var v, rest := x[0], x[1..];
      assert x == [v] + rest;
      FlattenConcat(rest, y, w);
      FlattenCons(v, rest, w);
      FlattenCons(v, rest + y, w);
      hide Flatten;
      assert x + y == [v] + (rest + y);
    }
  }

  lemma {:induction false} FlattenZeros(n: nat, w: nat)
    ensures Flatten(Repeat(0, n), w) == Zeros(n * w)
  {
    hide ToBits, FromBits, Pow2;
    if n > 0 {
      FlattenZeros(n - 1, w);
      ToBitsZero(w);
      assert Repeat<nat>(0, n)[1..] == Repeat<nat>(0, n - 1);
      OneMore(n, w);
      assert Zeros(n * w) == Zeros(w) + Zeros((n - 1) * w);
    }
  }

  lemma {:induction false} ChunksConcat(x: seq<bool>, y: seq<bool>, w: nat, m: nat, n: nat)
    requires |x| == m * w && |y| == n * w
    ensures |x + y| == (m + n) * w
    ensures Chunks(x + y, w, m + n) == Chunks(x, w, m) + Chunks(y, w, n)
    decreases m
  {
    assert (m + n) * w == m * w + n * w;
    if m == 0 {
      assert x + y == y;
    } else {
      assert m * w == w + (m - 1) * w;
      ChunksConcat(x[w..], y, w, m - 1, n);
      assert (x + y)[..w] == x[..w];
      assert (x + y)[w..] == x[w..] + y;
    }
  }

  lemma {:induction false} ChunksFlatten(vs: seq<nat>, w: nat)
    requires forall i :: 0 <= i < |vs| ==> vs[i] < Pow2(w)
    ensures |Flatten(vs, w)| == |vs| * w
    ensures Chunks(Flatten(vs, w), w, |vs|) == vs
  {
    FlattenLength(vs, w);
    if vs != [] {
      FromToBits(vs[0], w);
      assert Flatten(vs, w)[..w] == ToBits(vs[0], w);
      assert Flatten(vs, w)[w..] == Flatten(vs[1..], w);
      ChunksFlatten(vs[1..], w);
    }
  }

  lemma {:induction false} FlattenChunks(b: seq<bool>, w: nat, n: nat)
    requires |b| == n * w
    ensures Flatten(Chunks(b, w, n), w) == b
    decreases n
  {
    hide ToBits, FromBits, Pow2;
    if n > 0 {
      OneMore(n, w);
      var first, rest := b[..w], b[w..];
      assert b == first + rest;
      ToFromBits(first);
      FlattenChunks(rest, w, n - 1);
      FlattenCons(FromBits(first), Chunks(rest, w, n - 1), w);
    }
  }
}
