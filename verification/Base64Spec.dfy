/** The base 64 encoding of section 4 of RFC 4648, stated over bit strings. */
module Base64Spec {
  import opened Bits

  const PAD: byte := 61  // '='

  type sextet = x: int | 0 <= x < 64

  /** Table 1: A-Z, a-z, 0-9, '+', '/'. */
  function Letter(i: sextet): byte {
    if i < 26 then 65 + i
    else if i < 52 then 97 + (i - 26)
    else if i < 62 then 48 + (i - 52)
    else if i == 62 then 43 else 47
  }

  predicate IsLetter(c: byte) {
    || 65 <= c <= 90
    || 97 <= c <= 122
    || 48 <= c <= 57
    || c == 43
    || c == 47
  }

  /** The place of a letter in the table; other characters have none. */
  function Code(c: byte): (i: sextet)
    ensures IsLetter(c) ==> Letter(i) == c
  {
    if 65 <= c <= 90 then c - 65
    else if 97 <= c <= 122 then c - 97 + 26
    else if 48 <= c <= 57 then c - 48 + 52
    else if c == 43 then 62 else 63
  }

  lemma CodeOfLetter(i: sextet)
    ensures IsLetter(Letter(i)) && Code(Letter(i)) == i
  {
  }

  function Letters(xs: seq<int>): (t: seq<byte>)
    requires Fits(xs, 6)
    ensures |t| == |xs| && forall i | 0 <= i < |xs| :: t[i] == Letter(xs[i]) && IsLetter(t[i])
  {
    seq(|xs|, i requires 0 <= i < |xs| => Letter(xs[i]))
  }

  function Codes(t: seq<byte>): (xs: seq<int>)
    ensures |xs| == |t| && forall i | 0 <= i < |t| :: xs[i] == Code(t[i])
    ensures Fits(xs, 6)
  {
    seq(|t|, i requires 0 <= i < |t| => Code(t[i]))
  }

  /** How many characters come before the first one outside the alphabet. */
  function LetterCount(t: seq<byte>): (k: nat)
    ensures k <= |t|
    ensures forall i | 0 <= i < k :: IsLetter(t[i])
    ensures k < |t| ==> !IsLetter(t[k])
  {
    if t == [] || !IsLetter(t[0]) then 0 else 1 + LetterCount(t[1..])
  }

  function Pads(n: nat): (t: seq<byte>)
    ensures |t| == n && forall i | 0 <= i < n :: t[i] == PAD
  {
    seq(n, i => PAD)
  }

  /** How many bytes the last block of three lacks. */
  function Missing(n: nat): (m: nat)
    ensures m <= 2
  {
    if n == 0 then 0 else if n < 3 then 3 - n else Missing(n - 3)
  }

  /** How many six-bit groups `n` bytes need. */
  function SextetCount(n: nat): nat {
    if n == 0 then 0 else if n < 3 then n + 1 else 4 + SextetCount(n - 3)
  }

  /** The input's bits, with zeros added on the right to make whole groups of six. */
  function Filled(bs: seq<byte>): seq<bool> {
    Stream(bs, 8) + Zeros(2 * Missing(|bs|))
  }

  lemma {:induction false} Counts(n: nat)
    ensures 8 * n + 2 * Missing(n) == 6 * SextetCount(n)
    ensures Missing(n) == (3 - n % 3) % 3
    ensures SextetCount(n) + Missing(n) == 4 * ((n + 2) / 3)
  {
    if n < 3 {
    } else {
      Counts(n - 3);
      assert (n - 3) % 3 == n % 3 && (n + 2) / 3 == (n - 3 + 2) / 3 + 1;
    }
  }

  function Sextets(bs: seq<byte>): (xs: seq<int>)
    ensures Stream(xs, 6) == Filled(bs) && Fits(xs, 6) && |xs| == SextetCount(|bs|)
  {
    StreamLength(bs, 8);
    Counts(|bs|);
    StreamOfGroups(Filled(bs), 6, SextetCount(|bs|), 0);
    Groups(Filled(bs), 6)
  }

  /** One letter per group of six bits, then one '=' per byte missing from the last block. */
  function Encode(bs: seq<byte>): seq<byte> {
    Letters(Sextets(bs)) + Pads(Missing(|bs|))
  }

  /** The complete bytes in the bits of the leading letters. */
  function Decode(t: seq<byte>): (bs: seq<byte>)
    ensures |bs| == 3 * LetterCount(t) / 4
  {
    var b := Stream(Codes(t[..LetterCount(t)]), 6);
    StreamLength(Codes(t[..LetterCount(t)]), 6);
    StreamOfGroups(b, 8, |b| / 8, |b| % 8);
    assert Pow2(8) == 256;
    Groups(b, 8)
  }

  /**
   * A text in the one form that sections 3.2 and 3.5 of RFC 4648 let an encoder produce:
   * whole blocks of four characters, at most two '=' and only at the end, zero pad bits.
   */
  predicate Canonical(t: seq<byte>) {
    CanonicalAt(t, LetterCount(t))
  }

  predicate CanonicalAt(t: seq<byte>, k: nat)
    requires k <= |t|
  {
    && |t| % 4 == 0
    && |t| - k <= 2
    && (forall i | k <= i < |t| :: t[i] == PAD)
    && (|t| - k == 1 ==> Code(t[k - 1]) % 4 == 0)
    && (|t| - k == 2 ==> Code(t[k - 1]) % 16 == 0)
  }

  // ----- shape of the encoding

  lemma BytesFit(bs: seq<byte>)
    ensures Fits(bs, 8)
  {
    assert Pow2(8) == 256;
  }

  /** Four characters for every three bytes begun; the '=' say how many bytes the last block lacks. */
  lemma EncodeShape(bs: seq<byte>)
    ensures |Encode(bs)| == 4 * ((|bs| + 2) / 3)
    ensures |Encode(bs)| - LetterCount(Encode(bs)) == (3 - |bs| % 3) % 3
    ensures forall i | LetterCount(Encode(bs)) <= i < |Encode(bs)| :: Encode(bs)[i] == PAD
  {
    hide Missing, SextetCount, Stream, IsLetter;
    Counts(|bs|);
    LettersThenPads(Letters(Sextets(bs)), Missing(|bs|));
  }

  lemma {:induction false} LettersThenPads(text: seq<byte>, n: nat)
    requires forall i | 0 <= i < |text| :: IsLetter(text[i])
    ensures LetterCount(text + Pads(n)) == |text|
  {
    if text == [] {
      assert text + Pads(n) == Pads(n);
    } else {
      LettersThenPads(text[1..], n);
      assert (text + Pads(n))[1..] == text[1..] + Pads(n);
    }
  }

  // ----- round trips

  /** Decoding undoes encoding, for every byte string. */
  lemma DecodeEncode(bs: seq<byte>)
    ensures Decode(Encode(bs)) == bs
  {
    var xs, n := Sextets(bs), Missing(|bs|);
    var text := Letters(xs);
    LettersThenPads(text, n);
    assert (text + Pads(n))[..|text|] == text;
    CodesOfLetters(xs);
    BytesFit(bs);
    GroupsOfStream(bs, Zeros(2 * n), 8);
    assert bs + Groups(Zeros(2 * n), 8) == bs;
  }

  lemma {:induction false} LetterCountIs(t: seq<byte>, n: nat)
    requires n <= |t| && forall k | 0 <= k < n :: IsLetter(t[k])
    requires n < |t| ==> !IsLetter(t[n])
    ensures LetterCount(t) == n
  {
    if n == 0 {
    } else {
      LetterCountIs(t[1..], n - 1);
    }
  }

  /** Decoding an encoding that runs on with a character outside the alphabet ignores what follows. */
  lemma DecodeStops(bs: seq<byte>, c: byte, rest: seq<byte>)
    requires !IsLetter(c)
    ensures Decode(Encode(bs) + ([c] + rest)) == bs
  {
    var e, t := Encode(bs), Encode(bs) + ([c] + rest);
    var k := LetterCount(e);
    LetterCountIs(t, k);
    assert t[..k] == e[..k];
    DecodeEncode(bs);
  }

  lemma EncodeInjective(a: seq<byte>, b: seq<byte>)
    ensures Encode(a) == Encode(b) ==> a == b
  {
    DecodeEncode(a);
    DecodeEncode(b);
  }

  /** The low bits of the last group are the last bits of the stream. */
  lemma LastBits(xs: seq<int>, r: nat)
    requires xs != [] && r <= 6
    ensures |Stream(xs, 6)| >= 6
    ensures Stream(xs, 6)[|Stream(xs, 6)| - r..] == BitsOf(xs[|xs| - 1], r)
  {
    var z := xs[|xs| - 1];
    assert xs == xs[..|xs| - 1] + [z];
    StreamSnoc(xs[..|xs| - 1], z, 6);
    BitsSplit(z, 6 - r, r);
  }

  /** `r` zero bits at the end mean a multiple of `2^r`. */
  lemma ZeroBits(z: int, r: nat)
    requires r == 2 || r == 4
    ensures BitsOf(z, r) == Zeros(r) <==> z % (if r == 2 then 4 else 16) == 0
  {
    assert Pow2(2) == 4 && Pow2(4) == 16;
    NumberOfBits(z, r);
    NumberOfZeros(r);
    BitsOfNumber(BitsOf(z, r));
    BitsOfNumber(Zeros(r));
  }

  lemma {:induction false} NumberOfZeros(r: nat)
    ensures Number(Zeros(r)) == 0
  {
    if r == 0 {
    } else {
      NumberOfZeros(r - 1);
      assert Zeros(r)[..r - 1] == Zeros(r - 1);
    }
  }

  /** A stream of six-bit groups determines the groups. */
  lemma SameGroups(xs: seq<int>, ys: seq<int>)
    requires Fits(xs, 6) && Fits(ys, 6) && Stream(xs, 6) == Stream(ys, 6)
    ensures xs == ys
  {
    GroupsOfStream(xs, [], 6);
    GroupsOfStream(ys, [], 6);
    assert xs + Groups([], 6) == xs && ys + Groups([], 6) == ys;
    assert Stream(xs, 6) + [] == Stream(ys, 6) + [];
  }

  /** The encoding in terms of any six-bit groups that make up the filled bits. */
  lemma EncodeIs(bs: seq<byte>, xs: seq<int>, n: nat)
    requires Fits(xs, 6) && Stream(xs, 6) == Filled(bs) && n == Missing(|bs|)
    ensures Encode(bs) == Letters(xs) + Pads(n)
  {
    SameGroups(xs, Sextets(bs));
  }

  /** `n` pad characters stand for `2 * n` zero bits at the end. */
  ghost predicate ZeroEnd(xs: seq<int>, n: nat) {
    && (n == 1 ==> xs != [] && xs[|xs| - 1] % 4 == 0)
    && (n == 2 ==> xs != [] && xs[|xs| - 1] % 16 == 0)
  }

  lemma ZeroEndBits(xs: seq<int>, n: nat)
    requires n <= 2 && (n > 0 ==> xs != [])
    ensures n == 0 || |Stream(xs, 6)| >= 6
    ensures ZeroEnd(xs, n) <==> Stream(xs, 6)[|Stream(xs, 6)| - 2 * n..] == Zeros(2 * n)
  {
    if n > 0 {
      LastBits(xs, 2 * n);
      ZeroBits(xs[|xs| - 1], 2 * n);
    }
  }

  lemma TextIsCanonical(text: seq<byte>, n: nat, q: nat)
    requires |text| + n == 4 * q && n <= 2
    requires forall i | 0 <= i < |text| :: IsLetter(text[i])
    requires ZeroEnd(Codes(text), n)
    ensures Canonical(text + Pads(n))
  {
    LettersThenPads(text, n);
    assert n > 0 ==> (text + Pads(n))[|text| - 1] == text[|text| - 1];
  }

  lemma CodesOfLetters(xs: seq<int>)
    requires Fits(xs, 6)
    ensures Codes(Letters(xs)) == xs
  {
    forall i | 0 <= i < |xs| ensures Codes(Letters(xs))[i] == xs[i] {
      CodeOfLetter(xs[i]);
    }
  }

  lemma EncodeIsCanonical(bs: seq<byte>)
    ensures Canonical(Encode(bs))
  {
    var xs, n := Sextets(bs), Missing(|bs|);
    Counts(|bs|);
    assert ZeroEnd(xs, n) by {
      assert Stream(xs, 6)[|Stream(xs, 6)| - 2 * n..] == Zeros(2 * n);
      ZeroEndBits(xs, n);
    }
    CodesOfLetters(xs);
    TextIsCanonical(Letters(xs), n, (|bs| + 2) / 3);
  }

  lemma DropZeros(b: seq<bool>, c: seq<bool>, r: nat)
    requires r <= |b| && c == b[..|b| - r] && b[|b| - r..] == Zeros(r)
    ensures c + Zeros(r) == b
  {
  }

  lemma {:induction false} MissingBlocks(q: nat, n: nat)
    requires n <= 2 && n <= 3 * q
    ensures Missing(3 * q - n) == n
  {
    if q <= 1 {
    } else {
      MissingBlocks(q - 1, n);
    }
  }

  /** The pad bits of a canonical text are zeros, so encoding fills them in again. */
  lemma CanonicalBits(xs: seq<int>, n: nat, q: nat, bs: seq<byte>)
    requires Fits(xs, 6) && |xs| + n == 4 * q && n <= 2 && ZeroEnd(xs, n)
    requires bs == Groups(Stream(xs, 6), 8)
    ensures Filled(bs) == Stream(xs, 6) && Missing(|bs|) == n
  {
    hide Stream, Groups, BitsOf, Missing;
    var b := Stream(xs, 6);
    assert |b| == 8 * (3 * q - n) + 2 * n by {
      StreamLength(xs, 6);
    }
    StreamOfGroups(b, 8, 3 * q - n, 2 * n);
    MissingBlocks(q, n);
    assert b[|b| - 2 * n..] == Zeros(2 * n) by {
      ZeroEndBits(xs, n);
    }
    DropZeros(b, Stream(bs, 8), 2 * n);
  }

  lemma CanonicalParts(t: seq<byte>, k: nat)
    requires k <= |t| && CanonicalAt(t, k)
    ensures t == t[..k] + Pads(|t| - k) && ZeroEnd(Codes(t[..k]), |t| - k)
  {
    if k < |t| {
      assert Codes(t[..k])[k - 1] == Code(t[k - 1]);
    }
  }

  lemma LettersOfCodes(text: seq<byte>)
    requires forall i | 0 <= i < |text| :: IsLetter(text[i])
    ensures Letters(Codes(text)) == text
  {
  }

  lemma EncodeDecodeCanonical(t: seq<byte>)
    requires Canonical(t)
    ensures Encode(Decode(t)) == t
  {
    var text, n := t[..LetterCount(t)], |t| - LetterCount(t);
    CanonicalParts(t, LetterCount(t));
    CanonicalBits(Codes(text), n, |t| / 4, Decode(t));
    EncodeIs(Decode(t), Codes(text), n);
    LettersOfCodes(text);
  }

  /** Re-encoding what was decoded returns the text exactly when the text is canonical. */
  lemma EncodeDecode(t: seq<byte>)
    ensures Encode(Decode(t)) == t <==> Canonical(t)
  {
    if Canonical(t) {
      EncodeDecodeCanonical(t);
    }
    EncodeIsCanonical(Decode(t));
  }

  /** The canonical texts are exactly the encodings. */
  lemma EncodeImage(t: seq<byte>)
    ensures (exists bs :: Encode(bs) == t) <==> Canonical(t)
  {
    EncodeDecode(t);
    if bs :| Encode(bs) == t {
      EncodeIsCanonical(bs);
    }
  }

  lemma {:induction false} MissingAppend(m: nat, n: nat)
    requires m % 3 == 0
    ensures Missing(m) == 0 && Missing(m + n) == Missing(n)
  {
    if m == 0 {
    } else {
      MissingAppend(m - 3, n);
    }
  }

  lemma FilledAppend(a: seq<byte>, b: seq<byte>)
    requires |a| % 3 == 0
    ensures Filled(a + b) == Filled(a) + Filled(b)
  {
    MissingAppend(|a|, |b|);
    StreamAppend(a, b, 8);
    Associative(Stream(a, 8), Stream(b, 8), Zeros(2 * Missing(|b|)));
    assert Stream(a, 8) + Zeros(0) == Stream(a, 8);
  }

  /** Whole blocks of three bytes are encoded on their own. */
  lemma EncodeAppend(a: seq<byte>, b: seq<byte>)
    requires |a| % 3 == 0
    ensures Encode(a + b) == Encode(a) + Encode(b)
  {
    var xs, ys, n := Sextets(a), Sextets(b), Missing(|b|);
    MissingAppend(|a|, |b|);
    assert Encode(a) == Letters(xs);
    assert Encode(a + b) == Letters(xs + ys) + Pads(n) by {
      FilledAppend(a, b);
      StreamAppend(xs, ys, 6);
      EncodeIs(a + b, xs + ys, n);
    }
    LettersAppend(xs, ys);
    Associative(Letters(xs), Letters(ys), Pads(n));
  }

  lemma LettersAppend(xs: seq<int>, ys: seq<int>)
    requires Fits(xs, 6) && Fits(ys, 6)
    ensures Fits(xs + ys, 6) && Letters(xs + ys) == Letters(xs) + Letters(ys)
  {
  }
}
