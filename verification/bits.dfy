/** Bit strings, most significant bit first, and the two conversions the
    Base32 codec is built from: a number to its fixed-width bits and back,
    and a sequence of fixed-width numbers to one bit string and back. */
module Bits {

  function Pow2(n: nat): (p: nat)
    ensures p > 0
  {
    if n == 0 then 1 else 2 * Pow2(n - 1)
  }

  function Zeros(n: nat): (bs: seq<bool>)
    ensures |bs| == n
    ensures forall i :: 0 <= i < n ==> !bs[i]
  {
    seq(n, _ => false)
  }

  /** The `width` low-order bits of `v`, most significant first. */
  function ToBits(v: nat, width: nat): (bs: seq<bool>)
    ensures |bs| == width
    decreases width
  {
    if width == 0 then [] else ToBits(v / 2, width - 1) + [v % 2 == 1]
  }

  /** The number whose binary form is `bs`. */
  function FromBits(bs: seq<bool>): (v: nat)
    ensures v < Pow2(|bs|)
    decreases |bs|
  {
    if bs == [] then 0
    else 2 * FromBits(bs[..|bs| - 1]) + (if bs[|bs| - 1] then 1 else 0)
  }

  lemma {:induction false} FromToBits(v: nat, width: nat)
    requires v < Pow2(width)
    ensures FromBits(ToBits(v, width)) == v
    decreases width
  {
    if width > 0 {
      var bs := ToBits(v, width);
      assert bs[..width - 1] == ToBits(v / 2, width - 1);
      FromToBits(v / 2, width - 1);
    }
  }

  lemma {:induction false} ToFromBits(bs: seq<bool>)
    ensures ToBits(FromBits(bs), |bs|) == bs
    decreases |bs|
  {
    if bs != [] {
      var init := bs[..|bs| - 1];
      ToFromBits(init);
      assert FromBits(bs) / 2 == FromBits(init);
      assert bs == init + [bs[|bs| - 1]];
    }
  }

  /** Every value of `vals` has a `width`-bit form. */
  predicate Fits(vals: seq<nat>, width: nat)
  {
    forall i :: 0 <= i < |vals| ==> vals[i] < Pow2(width)
  }

  /** The `width`-bit forms of `vals`, concatenated. */
  function Join(vals: seq<nat>, width: nat): (bits: seq<bool>)
    ensures |bits| == width * |vals|
    decreases |vals|
  {
    if vals == [] then [] else ToBits(vals[0], width) + Join(vals[1..], width)
  }

  lemma MulAtLeast(width: nat, d: int)
    requires width > 0 && d >= 1
    ensures width * d >= width
  {
    assert width * d == width * (d - 1) + width;
  }

  /** Euclidean division is determined by any quotient and remainder pair. */
  lemma DivModUnique(n: int, width: nat, q: int, r: int)
    requires width > 0 && n == width * q + r && 0 <= r < width
    ensures n / width == q && n % width == r
  {
    var d := q - n / width;
    assert width * q - width * (n / width) == width * d;
    if d >= 1 {
      MulAtLeast(width, d);
    } else if d <= -1 {
      MulAtLeast(width, -d);
    }
  }

  lemma DivisibleStep(n: nat, width: nat)
    requires width > 0 && n > 0 && n % width == 0
    ensures n >= width && (n - width) % width == 0
    ensures (n - width) / width + 1 == n / width
  {
    var q := n / width;
    if q < 1 {
      DivModUnique(n, width, 0, n);
    }
    MulAtLeast(width, q);
    assert n - width == width * (q - 1) + 0;
    DivModUnique(n - width, width, q - 1, 0);
  }

  /** `bits` cut into consecutive `width`-bit numbers. */
  function Split(bits: seq<bool>, width: nat): (vals: seq<nat>)
    requires width > 0 && |bits| % width == 0
    ensures |vals| == |bits| / width
    ensures Fits(vals, width)
    decreases |bits|
  {
    if bits == [] then []
    else
      DivisibleStep(|bits|, width);
      [FromBits(bits[..width])] + Split(bits[width..], width)
  }

  lemma MultipleDivisible(width: nat, k: nat)
    requires width > 0
    ensures (width * k) % width == 0 && (width * k) / width == k
  {
    DivModUnique(width * k, width, k, 0);
  }

  lemma {:induction false} SplitJoin(vals: seq<nat>, width: nat)
    requires width > 0 && Fits(vals, width)
    ensures |Join(vals, width)| % width == 0
    ensures Split(Join(vals, width), width) == vals
    decreases |vals|
  {
    MultipleDivisible(width, |vals|);
    if vals != [] {
      var bits := Join(vals, width);
      assert bits[..width] == ToBits(vals[0], width);
      assert bits[width..] == Join(vals[1..], width);
      FromToBits(vals[0], width);
      SplitJoin(vals[1..], width);
    }
  }

  lemma {:induction false} JoinSplit(bits: seq<bool>, width: nat)
    requires width > 0 && |bits| % width == 0
    ensures Join(Split(bits, width), width) == bits
    decreases |bits|
  {
    if bits != [] {
      DivisibleStep(|bits|, width);
      ToFromBits(bits[..width]);
      JoinSplit(bits[width..], width);
      assert bits == bits[..width] + bits[width..];
    }
  }

  /** Halving and then dividing by `p` is dividing by `2 * p`. */
  lemma HalveThenDivide(v: nat, p: nat)
    requires p > 0
    ensures (v / 2) / p == v / (2 * p)
  {
    var q, r := (v / 2) / p, (v / 2) % p;
    assert v == 2 * (p * q + r) + v % 2;
    assert v == (2 * p) * q + (2 * r + v % 2);
    DivModUnique(v, 2 * p, q, 2 * r + v % 2);
  }

  /** The first `j` of the `n` low-order bits of `v` are the `j` low-order
      bits of `v` with its last `n - j` bits shifted out. */
  lemma {:induction false} ToBitsPrefix(v: nat, n: nat, j: nat)
    requires j <= n
    ensures ToBits(v, n)[..j] == ToBits(Shr(v, n - j), j)
    decreases n
  {
    if j == n {
      assert ToBits(v, n)[..j] == ToBits(v, n);
    } else {
      ToBitsPrefix(v / 2, n - 1, j);
      HalveThenDivide(v, Pow2(n - 1 - j));
      assert ToBits(v, n)[..j] == ToBits(v / 2, n - 1)[..j];
    }
  }

  /** Halving the remainder modulo `2 * p` gives the remainder of the half
      modulo `p`, and keeps the parity. */
  lemma HalveMod(v: nat, p: nat)
    requires p > 0
    ensures (v % (2 * p)) / 2 == (v / 2) % p
    ensures (v % (2 * p)) % 2 == v % 2
  {
    var q, r := v / (2 * p), v % (2 * p);
    assert v == (2 * p) * q + r;
    assert (2 * p) * q == 2 * (p * q);
    DivModUnique(v, 2, p * q + r / 2, r % 2);
    DivModUnique(v / 2, p, q, r / 2);
  }

  /** `v` shifted right by `w` bits. */
  function Shr(v: nat, w: nat): (q: nat)
  {
    DivNonnegative(v, Pow2(w));
    v / Pow2(w)
  }

  lemma DivNonnegative(v: nat, p: nat)
    requires p > 0
    ensures v / p >= 0
  {
  }

  /** The `k + w` low-order bits of `v` are the `k` low-order bits of its
      quotient by `2^w` followed by the `w` bits of its remainder. */
  lemma {:induction false} ToBitsSplit(v: nat, k: nat, w: nat)
    ensures ToBits(v, k + w) == ToBits(Shr(v, w), k) + ToBits(v % Pow2(w), w)
    decreases w
  {
    if w > 0 {
      var p := Pow2(w - 1);
      ToBitsSplit(v / 2, k, w - 1);
      HalveThenDivide(v, p);
      HalveMod(v, p);
      assert ToBits(v % Pow2(w), w) == ToBits((v / 2) % p, w - 1) + [v % 2 == 1];
    }
  }

  lemma Pow2Byte()
    ensures Pow2(8) == 256
  {
    assert Pow2(4) == 16;
  }

  /** The bits of two `w`-bit bytes are the `2w` low-order bits of their
      big-endian value `v`; `w` is eight. */
  lemma PairBits(hi: nat, lo: nat, v: nat, w: nat)
    requires Pow2(w) == 256 && hi < 256 && lo < 256 && v == hi * 256 + lo
    ensures Join([hi, lo], w) == ToBits(v, w + w)
  {
    assert Join([lo], w) == ToBits(lo, w);
    ToBitsSplit(v, w, w);
    DivModUnique(v, 256, hi, lo);
  }

  /** The first `k` bits of two bytes followed by zero fill are the top `k`
      bits of their big-endian value `v`. */
  lemma PairPrefix(hi: nat, lo: nat, v: nat, w: nat, fill: nat, k: nat)
    requires Pow2(w) == 256 && hi < 256 && lo < 256 && v == hi * 256 + lo && k <= w + w
    ensures k <= |Join([hi, lo], w) + Zeros(fill)|
    ensures (Join([hi, lo], w) + Zeros(fill))[..k] == ToBits(Shr(v, w + w - k), k)
  {
    PairBits(hi, lo, v, w);
    var bits := ToBits(v, w + w);
    assert (bits + Zeros(fill))[..k] == bits[..k];
    ToBitsPrefix(v, w + w, k);
  }

  /** Cutting the first `n` whole groups of `width` bits gives the first `n`
      numbers of the split. */
  lemma {:induction false} SplitPrefix(bits: seq<bool>, width: nat, n: nat, m: nat)
    requires width > 0 && |bits| % width == 0 && m % width == 0 && m <= |bits|
    requires n == m / width
    ensures n <= |Split(bits, width)|
    ensures Split(bits, width)[..n] == Split(bits[..m], width)
    decreases m
  {
    if m == 0 {
      DivModUnique(0, width, 0, 0);
    } else {
      DivisibleStep(|bits|, width);
      DivisibleStep(m, width);
      SplitPrefix(bits[width..], width, n - 1, m - width);
      assert bits[..m][..width] == bits[..width];
      assert bits[..m][width..] == bits[width..][..m - width];
    }
  }

  /** Equal splits come from equal bits. */
  lemma SplitInjective(a: seq<bool>, b: seq<bool>, width: nat)
    requires width > 0 && |a| % width == 0 && |b| % width == 0
    requires Split(a, width) == Split(b, width)
    ensures a == b
  {
    JoinSplit(a, width);
    JoinSplit(b, width);
  }
}
