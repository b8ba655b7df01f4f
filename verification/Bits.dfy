/** Integer shifts, masks and casts of the codecs, and the bit strings they stand for. */
module Bits {

  /** The values of an `unsigned char`. */
  type byte = x: int | 0 <= x < 256

  function Pow2(k: nat): (p: nat)
    ensures p >= 1
  {
    if k == 0 then 1 else 2 * Pow2(k - 1)
  }

  /** `x << k` on an integer that is wide enough. */
  function Shl(x: int, k: nat): int {
    x * Pow2(k)
  }

  /** The arithmetic shift `x >> k`: it rounds towards minus infinity. */
  function Shr(x: int, k: nat): int {
    x / Pow2(k)
  }

  /** The bitwise `x & mask`; `x` may be negative (two's complement). */
  function And(x: int, mask: nat): nat
    decreases mask, x
  {
    if mask == 0 then 0
    else 2 * And(x / 2, mask / 2) + (if x % 2 == 1 && mask % 2 == 1 then 1 else 0)
  }

  /** The conversion to `unsigned char`. */
  function ToByte(x: int): byte {
    x % 256
  }

  /** The machine's `int`: two's complement of some width, or the mathematical integers. */
  datatype Int = Unbounded | Wrapping(width: nat)
  {
    /** The value that is stored when `x` is computed. */
    function Store(x: int): int {
      if Unbounded? || width == 0 then x
      else (x + Pow2(width - 1)) % Pow2(width) - Pow2(width - 1)
    }
  }

  /** The low `w` bits of `x`, most significant first. */
  function BitsOf(x: int, w: nat): (b: seq<bool>)
    ensures |b| == w
    decreases w, x
  {
    if w == 0 then [] else BitsOf(x / 2, w - 1) + [x % 2 == 1]
  }

  /** The number that a bit string denotes, most significant bit first. */
  function Number(b: seq<bool>): nat {
    if b == [] then 0
    else 2 * Number(b[..|b| - 1]) + (if b[|b| - 1] then 1 else 0)
  }

  function Zeros(n: nat): (b: seq<bool>)
    ensures |b| == n && forall i | 0 <= i < n :: !b[i]
  {
    seq(n, i => false)
  }

  /** Every element can be written in `w` bits. */
  ghost predicate Fits(xs: seq<int>, w: nat) {
    forall i | 0 <= i < |xs| :: 0 <= xs[i] < Pow2(w)
  }

  /** The concatenated `w`-bit strings of `xs`. */
  function Stream(xs: seq<int>, w: nat): seq<bool> {
    if xs == [] then [] else BitsOf(xs[0], w) + Stream(xs[1..], w)
  }

  /** The numbers in the consecutive complete groups of `w` bits; what is left over is dropped. */
  function Groups(b: seq<bool>, w: nat): seq<nat>
    requires w > 0
  {
    if |b| < w then [] else [Number(b[..w])] + Groups(b[w..], w)
  }

  // ----- arithmetic

  lemma Halve(x: int, p: int)
    requires p > 0
    ensures (x / 2) / p == x / (2 * p)
    ensures 2 * ((x / 2) % p) + x % 2 == x % (2 * p)
  {
    var q, r := x / (2 * p), x % (2 * p);
    assert x == 2 * (p * q) + r;
    assert x / 2 == p * q + r / 2 && x % 2 == r % 2;
    DivMod(x / 2, p, q, r / 2);
  }

  lemma Quarter(x: int, p: int)
    requires p > 0
    ensures x / 4 / p == x / (4 * p)
    ensures 4 * (x / 4 % p) + x % 4 == x % (4 * p)
  {
    var q, r := x / (4 * p), x % (4 * p);
    assert x == 4 * (p * q) + r;
    assert x / 4 == p * q + r / 4 && x % 4 == r % 4;
    DivMod(x / 4, p, q, r / 4);
  }

  lemma DivMod(x: int, p: int, q: int, r: int)
    requires x == p * q + r && 0 <= r < p
    ensures x / p == q && x % p == r
  {
    var d, e := x / p - q, r - x % p;
    assert p * d == e by {
      assert p * d == p * (x / p) - p * q;
    }
    if d > 0 {
      MulAtLeast(p, d);
    } else if d < 0 {
      MulAtLeast(p, -d);
    }
  }

  lemma MulAtLeast(p: int, d: int)
    requires p > 0 && d > 0
    ensures p * d >= p
  {
    assert p * d == p + p * (d - 1);
  }

  lemma MulStep(w: nat, k: nat)
    requires k > 0
    ensures w * k == w + w * (k - 1) && w * (k - 1) >= 0
  {
  }

  lemma MulAssoc(h: int, p: int, q: int)
    ensures (h * p) * q == -((-q * h) * p)
  {
  }

  lemma MulDouble(a: nat, p: nat)
    ensures a * (2 * p) == 2 * (a * p)
  {
  }

  lemma {:induction false} Pow2Sum(a: nat, b: nat)
    ensures Pow2(a + b) == Pow2(a) * Pow2(b)
  {
    if a == 0 {
    } else {
      Pow2Sum(a - 1, b);
      MulDouble(Pow2(b), Pow2(a - 1));
    }
  }

  lemma AndEven(x: int, m: nat)
    ensures And(x, 2 * m) == 2 * And(x / 2, m)
  {
  }

  lemma AndOdd(x: int, m: nat)
    ensures And(x, 2 * m + 1) == 2 * And(x / 2, m) + x % 2
  {
    assert (2 * m + 1) / 2 == m && (2 * m + 1) % 2 == 1;
  }

  /** Two trailing zeros of a mask clear two bits. */
  lemma AndTwoZeros(x: int, m: nat)
    ensures And(x, 4 * m) == 4 * And(x / 4, m)
  {
    AndEven(x, 2 * m);
    AndEven(x / 2, m);
    assert x / 2 / 2 == x / 4;
  }

  lemma AndFourZeros(x: int, m: nat)
    ensures And(x, 16 * m) == 16 * And(x / 16, m)
  {
    AndTwoZeros(x, 4 * m);
    AndTwoZeros(x / 4, m);
    Quarter(x, 4);
  }

  /** Two trailing ones of a mask keep two bits. */
  lemma AndTwoOnes(x: int, m: nat)
    ensures And(x, 4 * m + 3) == 4 * And(x / 4, m) + x % 4
  {
    AndOdd(x, 2 * m + 1);
    AndOdd(x / 2, m);
    assert x / 2 / 2 == x / 4 && 2 * (x / 2 % 2) + x % 2 == x % 4;
  }

  // Masks of ones take remainders.

  lemma And3(x: int)
    ensures And(x, 0x03) == x % 4
  {
    AndTwoOnes(x, 0);
  }

  lemma And15(x: int)
    ensures And(x, 0x0f) == x % 16
  {
    Quarter(x, 4);
    And3(x / 4);
    AndTwoOnes(x, 0x03);
  }

  lemma And63(x: int)
    ensures And(x, 0x3f) == x % 64
  {
    Quarter(x, 16);
    And15(x / 4);
    AndTwoOnes(x, 0x0f);
  }

  lemma And255(x: int)
    ensures And(x, 0xff) == x % 256
  {
    Quarter(x, 64);
    And63(x / 4);
    AndTwoOnes(x, 0x3f);
  }

  /** The masks with trailing zeros cut a field out of the middle. */
  lemma AndFields(x: int)
    ensures And(x, 0xfc) == 4 * (x / 4 % 64) && And(x, 0x3c) == 4 * (x / 4 % 16)
    ensures And(x, 0xf0) == 16 * (x / 16 % 16) && And(x, 0x30) == 16 * (x / 16 % 4)
    ensures And(x, 0xc0) == 64 * (x / 64 % 4)
  {
    AndTwoZeros(x, 0x3f);
    And63(x / 4);
    AndTwoZeros(x, 0x0f);
    And15(x / 4);
    AndFourZeros(x, 0x0f);
    And15(x / 16);
    AndFourZeros(x, 0x03);
    And3(x / 16);
    AndFourZeros(x, 0x0c);
    AndTwoZeros(x / 16, 0x03);
    Quarter(x, 16);
    Quarter(x / 4, 4);
    And3(x / 64);
  }

  // ----- bit strings of numbers

  /** Only the remainder modulo `2^w` shows in the low `w` bits. */
  lemma {:induction false} BitsPeriodic(x: int, k: int, w: nat)
    ensures BitsOf(x + k * Pow2(w), w) == BitsOf(x, w)
    decreases w
  {
    if w == 0 {
    } else {
      var p := k * Pow2(w - 1);
      assert k * Pow2(w) == 2 * p;
      BitsPeriodic(x / 2, k, w - 1);
    }
  }

  lemma BitsMod(x: int, w: nat)
    ensures BitsOf(x % Pow2(w), w) == BitsOf(x, w)
  {
    hide BitsOf, Pow2;
    var q := x / Pow2(w);
    BitsPeriodic(x % Pow2(w), q, w);
  }

  /** Wrap-around is invisible in the low bits. */
  lemma BitsStored(x: int, cint: Int, w: nat)
    requires cint.Wrapping? ==> cint.width >= w
    ensures BitsOf(cint.Store(x), w) == BitsOf(x, w)
  {
    if cint.Wrapping? && cint.width != 0 {
      var k := StoreError(x, cint, w);
      BitsPeriodic(x, k, w);
    }
  }

  lemma StoreError(x: int, cint: Int, w: nat) returns (k: int)
    requires cint.Wrapping? && 0 < cint.width && w <= cint.width
    ensures cint.Store(x) == x + k * Pow2(w)
  {
    var p, h, z := Pow2(w), Pow2(cint.width - w), Pow2(cint.width - 1);
    Pow2Sum(cint.width - w, w);
    k := Remainder(x + z, h, p);
  }

  lemma Remainder(y: int, h: int, p: int) returns (k: int)
    requires h * p > 0
    ensures y % (h * p) == y + k * p
  {
    var q := y / (h * p);
    k := -q * h;
    MulAssoc(h, p, q);
  }

  lemma {:induction false} BitsSplit(x: int, hi: nat, lo: nat)
    ensures BitsOf(x, hi + lo) == BitsOf(Shr(x, lo), hi) + BitsOf(x, lo)
    decreases lo
  {
    if lo == 0 {
    } else {
      BitsSplit(x / 2, hi, lo - 1);
      Halve(x, Pow2(lo - 1));
    }
  }

  lemma BitsJoin(x: int, y: int, hi: nat, lo: nat)
    requires 0 <= y < Pow2(lo)
    ensures BitsOf(x * Pow2(lo) + y, hi + lo) == BitsOf(x, hi) + BitsOf(y, lo)
  {
    DivMod(x * Pow2(lo) + y, Pow2(lo), x, y);
    BitsSplit(x * Pow2(lo) + y, hi, lo);
    BitsPeriodic(y, x, lo);
  }

  lemma {:induction false} NumberOfBits(x: int, w: nat)
    ensures Number(BitsOf(x, w)) == x % Pow2(w)
    decreases w
  {
    if w == 0 {
    } else {
      NumberOfBits(x / 2, w - 1);
      Halve(x, Pow2(w - 1));
      assert BitsOf(x, w)[..w - 1] == BitsOf(x / 2, w - 1);
    }
  }

  lemma {:induction false} BitsOfNumber(b: seq<bool>)
    ensures BitsOf(Number(b), |b|) == b && Number(b) < Pow2(|b|)
  {
    if b == [] {
    } else {
      BitsOfNumber(b[..|b| - 1]);
    }
  }

  // ----- streams and groups

  lemma {:induction false} StreamLength(xs: seq<int>, w: nat)
    ensures |Stream(xs, w)| == w * |xs|
  {
    if xs == [] {
    } else {
      StreamLength(xs[1..], w);
      assert w * |xs| == w + w * |xs[1..]|;
    }
  }

  lemma {:induction false} StreamAppend(xs: seq<int>, ys: seq<int>, w: nat)
    ensures Stream(xs + ys, w) == Stream(xs, w) + Stream(ys, w)
  {
    if xs == [] {
      assert xs + ys == ys;
    } else {
      StreamAppend(xs[1..], ys, w);
      HeadTail(xs, ys);
      Associative(BitsOf(xs[0], w), Stream(xs[1..], w), Stream(ys, w));
    }
  }

  lemma StreamSnoc(xs: seq<int>, x: int, w: nat)
    ensures Stream(xs + [x], w) == Stream(xs, w) + BitsOf(x, w)
  {
    StreamAppend(xs, [x], w);
    assert Stream([x], w) == BitsOf(x, w) + Stream([], w);
  }

  lemma HeadTail(xs: seq<int>, ys: seq<int>)
    requires xs != []
    ensures [xs[0]] + (xs[1..] + ys) == xs + ys
    ensures (xs + ys)[1..] == xs[1..] + ys
  {
  }

  lemma Associative<T>(a: seq<T>, b: seq<T>, c: seq<T>)
    ensures a + b + c == a + (b + c)
  {
  }

  lemma GroupsCons(g: seq<bool>, b: seq<bool>, w: nat)
    requires |g| == w > 0
    ensures Groups(g + b, w) == [Number(g)] + Groups(b, w)
  {
    assert (g + b)[..w] == g && (g + b)[w..] == b;
  }

  /** Cutting a stream into groups of the width it was made with gives the numbers back. */
  lemma {:induction false} GroupsOfStream(xs: seq<int>, rest: seq<bool>, w: nat)
    requires w > 0
    requires Fits(xs, w)
    ensures Groups(Stream(xs, w) + rest, w) == xs + Groups(rest, w)
  {
    if xs == [] {
      assert Stream(xs, w) + rest == rest;
    } else {
      var g, b := BitsOf(xs[0], w), Stream(xs[1..], w) + rest;
      assert Stream(xs, w) + rest == g + b;
      GroupsCons(g, b, w);
      assert Number(g) == xs[0] by {
        NumberOfBits(xs[0], w);
        DivMod(xs[0], Pow2(w), 0, xs[0]);
      }
      GroupsOfStream(xs[1..], rest, w);
      HeadTail(xs, Groups(rest, w));
    }
  }

  /** The groups hold all bits but the incomplete last group. */
  lemma {:induction false} StreamOfGroups(b: seq<bool>, w: nat, k: nat, r: nat)
    requires |b| == w * k + r && r < w
    ensures Stream(Groups(b, w), w) == b[..|b| - r]
    ensures |Groups(b, w)| == k
    ensures Fits(Groups(b, w), w)
    decreases k
  {
    if k == 0 {
    } else {
      MulStep(w, k);
      var g, c := b[..w], b[w..];
      StreamOfGroups(c, w, k - 1, r);
      GroupsCons(g, c, w);
      assert b == g + c;
      BitsOfNumber(g);
      assert Groups(b, w)[1..] == Groups(c, w);
      assert g + c[..|c| - r] == b[..|b| - r];
    }
  }
}
