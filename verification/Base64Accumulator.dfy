/** The encoder and the decoder of utils/codec.cpp that shift bits through one `int`. */
module Base64Accumulator {
  import opened Bits
  import opened Base64Spec
  import opened Base64Codec

  /** `(val << k) + c` on the machine's `int`. */
  function ShiftIn(val: int, k: nat, c: int, cint: Int): int {
    cint.Store(cint.Store(Shl(val, k)) + c)
  }

  lemma StoreBits(y: int, c: int, cint: Int, w: nat)
    requires cint.Wrapping? ==> cint.width >= w > 0
    ensures BitsOf(cint.Store(cint.Store(y) + c), w) == BitsOf(y + c, w)
  {
    hide BitsOf;
    BitsStored(cint.Store(y) + c, cint, w);
    if cint.Wrapping? {
      var k := StoreError(y, cint, w);
      BitsPeriodic(y + c, k, w);
    }
  }

  /** Shifting in `k` new bits keeps `p` old ones, as long as the `int` has room for `p + k`. */
  lemma ShiftInBits(val: int, p: nat, k: nat, c: int, cint: Int)
    requires k > 0 && 0 <= c < Pow2(k)
    requires cint.Wrapping? ==> cint.width >= p + k
    ensures BitsOf(ShiftIn(val, k, c, cint), p + k) == BitsOf(val, p) + BitsOf(c, k)
  {
    hide BitsOf, Int.Store;
    StoreBits(Shl(val, k), c, cint, p + k);
    BitsJoin(val, c, p, k);
  }

  lemma LowBits(z: int)
    ensures And(z, 0x3F) < 64 && BitsOf(And(z, 0x3F), 6) == BitsOf(z, 6)
    ensures ToByte(And(z, 0xFF)) == And(z, 0xFF) && BitsOf(And(z, 0xFF), 8) == BitsOf(z, 8)
  {
    hide BitsOf, And;
    Pow2Values();
    And63(z);
    And255(z);
    BitsMod(z, 6);
    BitsMod(z, 8);
  }

  /** The final `(val << 8) >> (valb + 8)` fills the pending bits up with zeros. */
  lemma LastGroup(val: int, p: nat, cint: Int)
    requires p <= 4 && (cint.Wrapping? ==> cint.width >= 12)
    ensures BitsOf(Shr(cint.Store(Shl(val, 8)), p + 2), 6) == BitsOf(val, p) + Zeros(6 - p)
  {
    hide BitsOf, Int.Store;
    var y := cint.Store(Shl(val, 8));
    BitsStored(Shl(val, 8), cint, p + 8);
    BitsJoin(val, 0, p, 8);
    BitsSplit(y, 6, p + 2);
    ZeroBitString(8);
    assert BitsOf(Shr(y, p + 2), 6) == BitsOf(y, p + 8)[..6];
  }

  /** An encoder's groups, and fewer than six bits that are pending, account for all bytes read. */
  ghost predicate Encoded(bytes: seq<byte>, xs: seq<int>, pending: seq<bool>) {
    Fits(xs, 6) && Stream(xs, 6) + pending == Stream(bytes, 8)
  }

  lemma EncodedByte(bytes: seq<byte>, c: byte, xs: seq<int>, pending: seq<bool>)
    requires Encoded(bytes, xs, pending)
    ensures Encoded(bytes + [c], xs, pending + BitsOf(c, 8))
  {
    hide BitsOf;
    StreamSnoc(bytes, c, 8);
    Associative(Stream(xs, 6), pending, BitsOf(c, 8));
  }

  lemma EncodedGroup(bytes: seq<byte>, xs: seq<int>, x: sextet, pending: seq<bool>, rest: seq<bool>)
    requires Encoded(bytes, xs, pending) && pending == BitsOf(x, 6) + rest
    ensures Encoded(bytes, xs + [x], rest)
  {
    hide BitsOf;
    Pow2Values();
    StreamSnoc(xs, x, 6);
    Associative(Stream(xs, 6), BitsOf(x, 6), rest);
  }

  lemma LettersSnoc(xs: seq<int>, x: sextet)
    requires Fits(xs, 6)
    ensures Fits(xs + [x], 6) && Letters(xs + [x]) == Letters(xs) + [Letter(x)]
  {
    Pow2Values();
  }

  lemma ZeroCount(n: nat, k: nat, z: nat)
    requires 6 * k == 8 * n + z && z < 6
    ensures z == 2 * Missing(n) && k + Missing(n) == 4 * ((n + 2) / 3)
  {
    hide Missing, SextetCount;
    Counts(n);
    var d := k - SextetCount(n);
    assert 6 * d == z - 2 * Missing(n);
  }

  /** How many groups come out, and how many zeros the last one holds. */
  lemma EncodedCount(bytes: seq<byte>, xs: seq<int>, z: nat)
    requires Fits(xs, 6) && Stream(xs, 6) == Stream(bytes, 8) + Zeros(z) && z < 6
    ensures Encode(bytes) == Letters(xs) + Pads(Missing(|bytes|))
    ensures |xs| + Missing(|bytes|) == 4 * ((|bytes| + 2) / 3)
  {
    hide BitsOf, Stream, Missing;
    StreamLength(xs, 6);
    StreamLength(bytes, 8);
    ZeroCount(|bytes|, |xs|, z);
    EncodeIs(bytes, xs, Missing(|bytes|));
  }

  /**
   * Whatever the width of `int`, from twelve bits up, and even if it never wrapped,
   * the result is the encoding: only low bits of `val` are read.
   */
  method Base64EncodeStr(input: seq<byte>, cint: Int) returns (out: seq<byte>)
    requires cint.Wrapping? ==> cint.width >= 12
    ensures out == Encode(input)
  {
    hide BitsOf, Stream, Letters, And, Int.Store, Encode, Missing;
    out := [];
    var val, valb := 0, -6;
    ghost var xs := [];
    Start();
    assert input[..0] == [];
    for n := 0 to |input|
      invariant valb == -6 || valb == -4 || valb == -2
      invariant Encoded(input[..n], xs, BitsOf(val, valb + 6)) && out == Letters(xs)
    {
      assert input[..n + 1] == input[..n] + [input[n]];
      EncodedByte(input[..n], input[n], xs, BitsOf(val, valb + 6));
      Pow2Values();
      ShiftInBits(val, valb + 6, 8, input[n], cint);
      val := ShiftIn(val, 8, input[n], cint);
      valb := valb + 8;
      while valb >= 0
        invariant -6 <= valb <= 6 && valb % 2 == 0
        invariant Encoded(input[..n + 1], xs, BitsOf(val, valb + 6)) && out == Letters(xs)
        decreases valb
      {
        LowBits(Shr(val, valb));
        BitsSplit(val, 6, valb);
        EncodedGroup(input[..n + 1], xs, And(Shr(val, valb), 0x3F), BitsOf(val, valb + 6), BitsOf(val, valb));
        LettersSnoc(xs, And(Shr(val, valb), 0x3F));
        xs := xs + [And(Shr(val, valb), 0x3F)];
        out := out + [Letter(And(Shr(val, valb), 0x3F))];
        valb := valb - 6;
      }
    }
    assert input[..|input|] == input;
    if valb > -6 {
      ghost var x := Shr(cint.Store(Shl(val, 8)), valb + 8);
      LowBits(x);
      LastGroup(val, valb + 6, cint);
      FinishGroups(input, xs, BitsOf(val, valb + 6), And(x, 0x3F));
      LettersSnoc(xs, And(x, 0x3F));
      xs := xs + [And(x, 0x3F)];
      out := out + [Letter(And(Shr(cint.Store(Shl(val, 8)), valb + 8), 0x3F))];
      EncodedCount(input, xs, -valb);
    } else {
      NoPendingBits(val, input, xs);
      EncodedCount(input, xs, 0);
    }
    out := PadToFour(out, Missing(|input|), (|input| + 2) / 3);
  }

  /** Appends '=' until the length is a multiple of four. */
  method PadToFour(text: seq<byte>, ghost missing: nat, ghost blocks: nat) returns (ret: seq<byte>)
    requires |text| + missing == 4 * blocks && missing < 4
    ensures ret == text + Pads(missing)
  {
    ret := text;
    ghost var pads := 0;
    while |ret| % 4 != 0
      invariant pads <= missing && ret == text + Pads(pads)
      decreases missing - pads
    {
      assert Pads(pads) + [PAD] == Pads(pads + 1);
      pads := pads + 1;
      ret := ret + [PAD];
    }
  }

  lemma Start()
    ensures Encoded([], [], BitsOf(0, 0)) && Letters([]) == []
  {
  }

  lemma NoPendingBits(val: int, bytes: seq<byte>, xs: seq<int>)
    requires Encoded(bytes, xs, BitsOf(val, 0))
    ensures Stream(xs, 6) == Stream(bytes, 8) + Zeros(0)
  {
  }

  lemma FinishGroups(bytes: seq<byte>, xs: seq<int>, pending: seq<bool>, x: sextet)
    requires Encoded(bytes, xs, pending) && |pending| <= 6
    requires BitsOf(x, 6) == pending + Zeros(6 - |pending|)
    ensures Stream(xs + [x], 6) == Stream(bytes, 8) + Zeros(6 - |pending|)
  {
    hide BitsOf;
    StreamSnoc(xs, x, 6);
    Associative(Stream(xs, 6), pending, Zeros(6 - |pending|));
  }

  // ----- base64_decodestr

  ghost predicate IsCodeTable(t: seq<int>) {
    |t| == 256 && forall c: byte :: t[c] == if IsLetter(c) then Code(c) else -1
  }

  /** The table from characters to places in the alphabet; -1 for other characters. */
  method CodeTable() returns (t: array<int>)
    ensures fresh(t) && IsCodeTable(t[..])
  {
    t := new int[256](_ => -1);
    for i := 0 to 64
      invariant forall c: byte :: t[c] == if IsLetter(c) && Code(c) < i then Code(c) else -1
    {
      CodeOfLetter(i);
      t[Letter(i)] := i;
    }
  }

  lemma DecodedLetter(t: seq<byte>, n: nat, ret: seq<byte>, rest: seq<bool>)
    requires Decoded(t, n, ret, rest) && n < |t| && IsLetter(t[n])
    ensures Decoded(t, n + 1, ret, rest + BitsOf(Code(t[n]), 6))
  {
    hide BitsOf, Stream, Code;
    CodesAppend(t, n, n + 1);
    assert Codes(t[n..n + 1]) == [Code(t[n])];
    Stream1(Code(t[n]), 6);
    Associative(Stream(ret, 8), rest, BitsOf(Code(t[n]), 6));
  }

  lemma DecodedByte(t: seq<byte>, n: nat, ret: seq<byte>, b: byte, pending: seq<bool>, rest: seq<bool>)
    requires Decoded(t, n, ret, pending) && pending == BitsOf(b, 8) + rest
    ensures Decoded(t, n, ret + [b], rest)
  {
    hide BitsOf, Stream, Code;
    StreamSnoc(ret, b, 8);
    Associative(Stream(ret, 8), BitsOf(b, 8), rest);
  }

  method Base64DecodeStr(input: seq<byte>, cint: Int) returns (out: seq<byte>)
    requires cint.Wrapping? ==> cint.width >= 12
    ensures out == Decode(input)
  {
    hide BitsOf, Stream, Code, And, Int.Store, Decode, IsLetter;
    out := [];
    var table := CodeTable();
    var val, valb, n := 0, -8, 0;
    NothingPending(input, val);
    Pow2Values();
    while n < |input|
      invariant n <= |input| && IsCodeTable(table[..])
      invariant valb == -8 || valb == -6 || valb == -4 || valb == -2
      invariant Decoded(input, n, out, BitsOf(val, valb + 8))
    {
      var c := input[n];
      assert table[c] == table[..][c];
      if table[c] == -1 {
        break;
      }
      DecodedLetter(input, n, out, BitsOf(val, valb + 8));
      ShiftInBits(val, valb + 8, 6, Code(c), cint);
      val := ShiftIn(val, 6, table[c], cint);
      valb := valb + 6;
      if valb >= 0 {
        LowBits(Shr(val, valb));
        BitsSplit(val, 8, valb);
        DecodedByte(input, n + 1, out, And(Shr(val, valb), 0xFF), BitsOf(val, valb + 8), BitsOf(val, valb));
        out := out + [ToByte(And(Shr(val, valb), 0xFF))];
        valb := valb - 8;
      }
      n := n + 1;
    }
    DecodeIs(input, n, out, BitsOf(val, valb + 8));
  }

  lemma NothingPending(t: seq<byte>, val: int)
    ensures Decoded(t, 0, [], BitsOf(val, 0))
  {
    NothingDecoded(t);
  }

  // ----- the accumulators' int

  /** The value in range that is equal modulo 2^32: there is only one. */
  lemma StoredInt(x: int)
    ensures -0x8000_0000 <= Wrapping(32).Store(x) < 0x8000_0000
    ensures (Wrapping(32).Store(x) - x) % 0x1_0000_0000 == 0
    ensures -0x8000_0000 <= x < 0x8000_0000 ==> Wrapping(32).Store(x) == x
    ensures Unbounded.Store(x) == x
  {
    Pow2Sum(16, 16);
    Pow2Sum(16, 15);
    Pow2Sum(8, 8);
    Pow2Sum(8, 7);
    Pow2Values();
    assert Pow2(7) == 128 && Pow2(15) == 0x8000 && Pow2(16) == 0x1_0000;
    assert Pow2(31) == 0x8000_0000 && Pow2(32) == 0x1_0000_0000;
    var y := x + 0x8000_0000;
    assert y == y / 0x1_0000_0000 * 0x1_0000_0000 + y % 0x1_0000_0000;
    assert y % 0x1_0000_0000 - y == -(y / 0x1_0000_0000) * 0x1_0000_0000;
  }
}
