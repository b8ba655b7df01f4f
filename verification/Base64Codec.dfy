/** The two encoders and the two decoders of utils/codec.cpp. */
module Base64Codec {
  import opened Bits
  import opened Base64Spec

  /** The byte that storing `std::string::npos` in an `unsigned char` leaves. */
  const NPOS: byte := 255

  /** `base64_chars.find(c)`, stored in an `unsigned char`. */
  function Find(c: byte): byte {
    if IsLetter(c) then Code(c) else NPOS
  }

  // ----- one block, in numbers and in bits

  lemma Pow2Values()
    ensures Pow2(2) == 4 && Pow2(4) == 16 && Pow2(6) == 64 && Pow2(8) == 256
  {
  }

  /** The masks and shifts of a first, second and third byte. */
  lemma ByteFields(a: byte)
    ensures Shr(And(a, 0xfc), 2) == a / 4 && Shl(And(a, 0x03), 4) == 16 * (a % 4)
    ensures Shr(And(a, 0xf0), 4) == a / 16 && Shl(And(a, 0x0f), 2) == 4 * (a % 16)
    ensures Shr(And(a, 0xc0), 6) == a / 64 && And(a, 0x3f) == a % 64
  {
    Pow2Values();
    AndFields(a);
    And3(a);
    And15(a);
    And63(a);
    FieldBounds(a);
  }

  lemma FieldBounds(a: byte)
    ensures a / 4 % 64 == a / 4 && a / 16 % 16 == a / 16 && a / 64 % 4 == a / 64
  {
  }

  /** Two bytes, cut into high and low parts, have the bits of two groups and four more. */
  lemma SplitFirst(ah: int, al: int, bh: int, bl: int)
    requires 0 <= al < 4 && 0 <= bh < 16 && 0 <= bl < 16
    ensures BitsOf(ah * 4 + al, 8) + BitsOf(bh * 16 + bl, 8)
         == BitsOf(ah, 6) + BitsOf(al * 16 + bh, 6) + BitsOf(bl, 4)
  {
    hide BitsOf;
    Pow2Values();
    BitsJoin(ah, al, 6, 2);
    BitsJoin(bh, bl, 4, 4);
    BitsJoin(al, bh, 2, 4);
    Chain(BitsOf(ah * 4 + al, 8), BitsOf(bh * 16 + bl, 8), BitsOf(ah, 6), BitsOf(al, 2),
          BitsOf(al * 16 + bh, 6), BitsOf(bl, 4), BitsOf(bh, 4));
  }

  lemma Chain<T>(a: seq<T>, b: seq<T>, u: seq<T>, m: seq<T>, w: seq<T>, x: seq<T>, n: seq<T>)
    requires a == u + m && b == n + x && w == m + n
    ensures a + b == u + w + x
  {
  }

  lemma Link<T>(a: seq<T>, b: seq<T>, m: seq<T>, x: seq<T>, w: seq<T>)
    requires b == m + x && w == a + m
    ensures a + b == w + x
  {
  }

  /** Those four bits and the third byte have the bits of the other two groups. */
  lemma SplitSecond(bl: int, ch: int, cl: int)
    requires 0 <= ch < 4 && 0 <= cl < 64
    ensures BitsOf(bl, 4) + BitsOf(ch * 64 + cl, 8) == BitsOf(bl * 4 + ch, 6) + BitsOf(cl, 6)
  {
    hide BitsOf;
    Pow2Values();
    BitsJoin(ch, cl, 2, 6);
    BitsJoin(bl, ch, 4, 2);
    Link(BitsOf(bl, 4), BitsOf(ch * 64 + cl, 8), BitsOf(ch, 2), BitsOf(cl, 6), BitsOf(bl * 4 + ch, 6));
  }

  lemma SplitStream(ah: int, al: int, bh: int, bl: int, ch: int, cl: int)
    requires 0 <= al < 4 && 0 <= bh < 16 && 0 <= bl < 16 && 0 <= ch < 4 && 0 <= cl < 64
    ensures Stream([ah * 4 + al, bh * 16 + bl, ch * 64 + cl], 8)
         == Stream([ah, al * 16 + bh, bl * 4 + ch, cl], 6)
  {
    hide BitsOf;
    var u, v, w, x := BitsOf(ah, 6), BitsOf(al * 16 + bh, 6), BitsOf(bl * 4 + ch, 6), BitsOf(cl, 6);
    SplitFirst(ah, al, bh, bl);
    SplitSecond(bl, ch, cl);
    Stream3(ah * 4 + al, bh * 16 + bl, ch * 64 + cl, 8);
    Stream4(ah, al * 16 + bh, bl * 4 + ch, cl, 6);
    Follow(BitsOf(ah * 4 + al, 8) + BitsOf(bh * 16 + bl, 8), u + v, BitsOf(bl, 4), BitsOf(ch * 64 + cl, 8), w, x);
  }

  lemma Follow<T>(a: seq<T>, u: seq<T>, m: seq<T>, b: seq<T>, w: seq<T>, x: seq<T>)
    requires a == u + m && m + b == w + x
    ensures a + b == u + w + x
  {
    assert a + b == u + (m + b);
  }

  /** What the masks and shifts leave of three bytes has the three bytes' bits. */
  lemma SplitCorrect(a: byte, b: byte, c: byte, s: seq<int>)
    requires s == [a / 4, 16 * (a % 4) + b / 16, 4 * (b % 16) + c / 64, c % 64]
    ensures Fits(s, 6) && Stream(s, 6) == Stream([a, b, c], 8)
  {
    hide BitsOf;
    var ah, al, bh, bl, ch, cl := a / 4, a % 4, b / 16, b % 16, c / 64, c % 64;
    SplitStream(ah, al, bh, bl, ch, cl);
    assert [a, b, c] == [ah * 4 + al, bh * 16 + bl, ch * 64 + cl];
    assert s == [ah, al * 16 + bh, bl * 4 + ch, cl];
    Pow2Values();
  }

  /** The masks and shifts of a six-bit group. */
  lemma GroupFields(a: sextet)
    ensures Shl(a, 2) == 4 * a && Shr(And(a, 0x30), 4) == a / 16
    ensures Shl(And(a, 0x0f), 4) == 16 * (a % 16) && Shr(And(a, 0x3c), 2) == a / 4
    ensures Shl(And(a, 0x03), 6) == 64 * (a % 4)
  {
    Pow2Values();
    AndFields(a);
    And15(a);
    And3(a);
    GroupBounds(a);
  }

  lemma GroupBounds(a: sextet)
    ensures a / 16 % 4 == a / 16 && a / 4 % 16 == a / 4
  {
  }

  lemma Stream1(x: int, w: nat)
    ensures Stream([x], w) == BitsOf(x, w)
  {
    StreamSnoc([], x, w);
    assert [] + [x] == [x];
  }

  lemma Stream2(x: int, y: int, w: nat)
    ensures Stream([x, y], w) == BitsOf(x, w) + BitsOf(y, w)
  {
    StreamSnoc([x], y, w);
    Stream1(x, w);
    assert [x] + [y] == [x, y];
  }

  lemma Stream3(x: int, y: int, z: int, w: nat)
    ensures Stream([x, y, z], w) == BitsOf(x, w) + BitsOf(y, w) + BitsOf(z, w)
  {
    StreamSnoc([x, y], z, w);
    Stream2(x, y, w);
    assert [x, y] + [z] == [x, y, z];
  }

  lemma Stream4(x: int, y: int, z: int, v: int, w: nat)
    ensures Stream([x, y, z, v], w) == BitsOf(x, w) + BitsOf(y, w) + BitsOf(z, w) + BitsOf(v, w)
  {
    StreamSnoc([x, y, z], v, w);
    Stream3(x, y, z, w);
    assert [x, y, z] + [v] == [x, y, z, v];
  }

  // ----- base64_encode

  /** Cuts the three bytes of a block into four six-bit groups. */
  method SplitBlock(block: array<byte>, groups: array<byte>)
    requires block.Length == 3 && groups.Length == 4 && block != groups
    modifies groups
    ensures Stream(groups[..], 6) == Stream(block[..], 8) && Fits(groups[..], 6)
  {
    ByteFields(block[0]);
    ByteFields(block[1]);
    ByteFields(block[2]);
    groups[0] := Shr(And(block[0], 0xfc), 2);
    groups[1] := Shl(And(block[0], 0x03), 4) + Shr(And(block[1], 0xf0), 4);
    groups[2] := Shl(And(block[1], 0x0f), 2) + Shr(And(block[2], 0xc0), 6);
    groups[3] := And(block[2], 0x3f);
    SplitCorrect(block[0], block[1], block[2], groups[..]);
    assert block[..] == [block[0], block[1], block[2]];
  }

  /** Appends the letters of the first `count` groups. */
  method AppendLetters(text: seq<byte>, groups: array<byte>, count: nat) returns (ret: seq<byte>)
    requires count <= groups.Length && Fits(groups[..], 6)
    ensures Fits(groups[..count], 6) && ret == text + Letters(groups[..count])
  {
    ret := text;
    assert Pow2(6) == 64;
    for j := 0 to count
      invariant |ret| == |text| + j && ret[..|text|] == text
      invariant forall k | 0 <= k < j :: groups[k] < 64 && ret[|text| + k] == Letter(groups[k])
    {
      assert groups[j] == groups[..][j];
      ret := ret + [Letter(groups[j])];
    }
  }

  /** Encodes the last one or two bytes: the block is filled up with zeros, the text with '='. */
  method AppendLastBlock(text: seq<byte>, block: array<byte>, groups: array<byte>, count: nat)
    returns (ret: seq<byte>)
    requires block.Length == 3 && groups.Length == 4 && block != groups && 1 <= count <= 2
    modifies block, groups
    ensures ret == text + Encode(old(block[..count]))
  {
    ghost var tail := block[..count];
    for j := count to 3
      invariant block[..count] == tail && forall k | count <= k < j :: block[k] == 0
    {
      block[j] := 0;
    }
    SplitBlock(block, groups);
    ret := AppendLetters(text, groups, count + 1);
    ghost var letters := Letters(groups[..count + 1]);
    EncodeLastBlock(count, block[..], groups[..], tail);
    var i := count;
    while i < 3
      invariant count <= i <= 3 && ret == text + (letters + Pads(i - count))
    {
      assert Pads(i - count) + [PAD] == Pads(i + 1 - count);
      ret := ret + [PAD];
      i := i + 1;
    }
  }

  method AppendFullBlock(text: seq<byte>, block: array<byte>, groups: array<byte>) returns (ret: seq<byte>)
    requires block.Length == 3 && groups.Length == 4 && block != groups
    modifies groups
    ensures ret == text + Encode(block[..])
  {
    SplitBlock(block, groups);
    ret := AppendLetters(text, groups, 4);
    assert groups[..] == groups[..4];
    EncodeFullBlock(block[..], groups[..]);
  }

  method Base64Encode(bytes: seq<byte>) returns (ret: seq<byte>)
    ensures ret == Encode(bytes)
  {
    hide Stream, Sextets, Letters;
    ret := [];
    var charArray3, charArray4 := new byte[3], new byte[4];
    var i, n := 0, 0;
    ghost var blocks, done := 0, 0;
    while n < |bytes|
      invariant 0 <= i < 3 && n == done + i <= |bytes| && done == 3 * blocks
      invariant forall k | 0 <= k < i :: charArray3[k] == bytes[done + k]
      invariant ret == Encode(bytes[..done])
    {
      charArray3[i] := bytes[n];
      i, n := i + 1, n + 1;
      if i == 3 {
        assert charArray3[..] == bytes[done..n];
        ret := AppendFullBlock(ret, charArray3, charArray4);
        EncodeSplit(bytes, blocks, n);
        i, blocks, done := 0, blocks + 1, n;
      }
    }
    assert bytes[..n] == bytes;
    if i != 0 {
      assert charArray3[..i] == bytes[done..n];
      EncodeSplit(bytes, blocks, n);
      ret := AppendLastBlock(ret, charArray3, charArray4, i);
    }
  }

  lemma EncodeSplit(bytes: seq<byte>, blocks: nat, n: nat)
    requires 3 * blocks <= n <= |bytes|
    ensures Encode(bytes[..n]) == Encode(bytes[..3 * blocks]) + Encode(bytes[3 * blocks..n])
  {
    EncodeAppend(bytes[..3 * blocks], bytes[3 * blocks..n]);
    assert bytes[..n] == bytes[..3 * blocks] + bytes[3 * blocks..n];
  }

  lemma EncodeFullBlock(block: seq<byte>, groups: seq<byte>)
    requires |block| == 3 && Stream(groups, 6) == Stream(block, 8) && Fits(groups, 6)
    ensures Encode(block) == Letters(groups)
  {
    assert Missing(3) == 0;
    assert Filled(block) == Stream(block, 8);
    EncodeIs(block, groups, 0);
  }

  lemma EncodeLastBlock(i: nat, block: seq<byte>, groups: seq<byte>, tail: seq<byte>)
    requires 1 <= i <= 2 && |block| == 3 && block[..i] == tail
    requires forall k | i <= k < 3 :: block[k] == 0
    requires |groups| == 4 && Stream(groups, 6) == Stream(block, 8) && Fits(groups, 6)
    ensures Fits(groups[..i + 1], 6) && Encode(tail) == Letters(groups[..i + 1]) + Pads(3 - i)
  {
    FilledTail(i, block, groups);
    EncodeIs(tail, groups[..i + 1], 3 - i);
  }

  /** The groups kept from a zero-filled last block hold its bits and the added zeros. */
  lemma FilledTail(i: nat, block: seq<byte>, groups: seq<byte>)
    requires 1 <= i <= 2 && |block| == 3 && forall k | i <= k < 3 :: block[k] == 0
    requires |groups| == 4 && Stream(groups, 6) == Stream(block, 8)
    ensures Missing(i) == 3 - i
    ensures Stream(groups[..i + 1], 6) == Filled(block[..i])
  {
    var kept, rest := groups[..i + 1], groups[i + 1..];
    var tail, zeros := block[..i], block[i..];
    assert groups == kept + rest && block == tail + zeros;
    StreamAppend(kept, rest, 6);
    StreamAppend(tail, zeros, 8);
    StreamLength(kept, 6);
    StreamLength(tail, 8);
    ZeroStream(zeros);
    var m := 2 * (3 - i);
    assert Stream(kept, 6) == Stream(block, 8)[..8 * i + m];
    assert Stream(block, 8)[..8 * i + m] == Stream(tail, 8) + Zeros(8 * (3 - i))[..m];
    assert Zeros(8 * (3 - i))[..m] == Zeros(m);
  }

  lemma {:induction false} ZeroStream(bs: seq<byte>)
    requires forall k | 0 <= k < |bs| :: bs[k] == 0
    ensures Stream(bs, 8) == Zeros(8 * |bs|)
  {
    if bs == [] {
    } else {
      ZeroStream(bs[1..]);
      ZeroBitString(8);
      assert Zeros(8) + Zeros(8 * |bs[1..]|) == Zeros(8 * |bs|);
    }
  }

  lemma {:induction false} ZeroBitString(w: nat)
    ensures BitsOf(0, w) == Zeros(w)
  {
    if w == 0 {
    } else {
      ZeroBitString(w - 1);
    }
  }

  // ----- base64_decode

  /** A decoder's output, and fewer than eight bits that it leaves, account for all letters read. */
  ghost predicate Decoded(t: seq<byte>, n: nat, ret: seq<byte>, rest: seq<bool>) {
    && n <= |t|
    && (forall k | 0 <= k < n :: IsLetter(t[k]))
    && Stream(Codes(t[..n]), 6) == Stream(ret, 8) + rest
  }

  lemma DecodeIs(t: seq<byte>, n: nat, ret: seq<byte>, rest: seq<bool>)
    requires Decoded(t, n, ret, rest) && |rest| < 8
    requires n < |t| ==> !IsLetter(t[n])
    ensures Decode(t) == ret
  {
    LetterCountIs(t, n);
    BytesFit(ret);
    GroupsOfStream(ret, rest, 8);
    assert ret + Groups(rest, 8) == ret;
  }

  /** Replaces the letters of a block by their places in the alphabet. */
  method LookUp(block: array<byte>)
    requires block.Length == 4
    modifies block
    ensures forall k | 0 <= k < 4 :: block[k] == Find(old(block[k]))
  {
    for j := 0 to 4
      invariant forall k | 0 <= k < 4 :: block[k] == if k < j then Find(old(block[k])) else old(block[k])
    {
      block[j] := Find(block[j]);
    }
  }

  /** The bits of the `i`-th group that do not fill a byte any more. */
  ghost function Rest(groups: seq<byte>, i: nat): seq<bool>
    requires |groups| == 4 && 1 <= i <= 4
  {
    match i
    case 1 => BitsOf(groups[0], 6)
    case 2 => BitsOf(groups[1] % 16, 4)
    case 3 => BitsOf(groups[2] % 4, 2)
    case _ => []
  }

  /** Puts `i` six-bit groups together; the other groups may hold anything. */
  method JoinBlock(groups: array<byte>, block: array<byte>, ghost i: nat)
    requires groups.Length == 4 && block.Length == 3 && groups != block
    requires 1 <= i <= 4 && forall k | 0 <= k < i :: groups[k] < 64
    modifies block
    ensures Stream(groups[..i], 6) == Stream(block[..i - 1], 8) + Rest(groups[..], i)
  {
    block[0] := ToByte(Shl(groups[0], 2) + Shr(And(groups[1], 0x30), 4));
    block[1] := ToByte(Shl(And(groups[1], 0x0f), 4) + Shr(And(groups[2], 0x3c), 2));
    block[2] := ToByte(Shl(And(groups[2], 0x03), 6) + groups[3]);
    assert groups[..][..i] == groups[..i] && block[..][..i - 1] == block[..i - 1];
    JoinStream(groups[..], block[..], i);
  }

  ghost predicate Joined(g: seq<byte>, b: seq<byte>)
    requires |g| == 4 && |b| == 3
  {
    && b[0] == ToByte(Shl(g[0], 2) + Shr(And(g[1], 0x30), 4))
    && b[1] == ToByte(Shl(And(g[1], 0x0f), 4) + Shr(And(g[2], 0x3c), 2))
    && b[2] == ToByte(Shl(And(g[2], 0x03), 6) + g[3])
  }

  lemma {:induction false} JoinStream(g: seq<byte>, b: seq<byte>, i: nat)
    requires |g| == 4 && |b| == 3 && Joined(g, b)
    requires 1 <= i <= 4 && forall k | 0 <= k < i :: g[k] < 64
    ensures Stream(g[..i], 6) == Stream(b[..i - 1], 8) + Rest(g, i)
  {
    hide BitsOf;
    if i == 1 {
      Stream1(g[0], 6);
      assert g[..1] == [g[0]];
      assert Stream(b[..0], 8) == [];
    } else {
      JoinStream(g, b, i - 1);
      JoinStep(g, b, i - 1);
      StreamSnoc(g[..i - 1], g[i - 1], 6);
      StreamSnoc(b[..i - 2], b[i - 2], 8);
      assert g[..i] == g[..i - 1] + [g[i - 1]] && b[..i - 1] == b[..i - 2] + [b[i - 2]];
      Step(Stream(b[..i - 2], 8), Rest(g, i - 1), BitsOf(g[i - 1], 6), BitsOf(b[i - 2], 8), Rest(g, i));
    }
  }

  lemma Step<T>(s: seq<T>, r: seq<T>, g: seq<T>, b: seq<T>, r': seq<T>)
    requires r + g == b + r'
    ensures s + r + g == s + b + r'
  {
    assert s + r + g == s + (r + g);
  }

  /** The masks and shifts join parts of two groups; no bit is lost in the conversion to a byte. */
  lemma JoinedValues(a: sextet, b: sextet)
    ensures ToByte(Shl(a, 2) + Shr(And(b, 0x30), 4)) == 4 * a + b / 16
    ensures ToByte(Shl(And(a, 0x0f), 4) + Shr(And(b, 0x3c), 2)) == 16 * (a % 16) + b / 4
    ensures ToByte(Shl(And(a, 0x03), 6) + b) == 64 * (a % 4) + b
  {
    hide And;
    hide Pow2, Shl, Shr;
    GroupFields(a);
    GroupFields(b);
    ToByteSmall(4 * a + b / 16);
    ToByteSmall(16 * (a % 16) + b / 4);
    ToByteSmall(64 * (a % 4) + b);
  }

  lemma ToByteSmall(x: int)
    requires 0 <= x < 256
    ensures ToByte(x) == x
  {
  }

  /** Each further group completes a byte. */
  lemma JoinStep(g: seq<byte>, b: seq<byte>, i: nat)
    requires |g| == 4 && |b| == 3 && Joined(g, b)
    requires 1 <= i <= 3 && forall k | 0 <= k <= i :: g[k] < 64
    ensures Rest(g, i) + BitsOf(g[i], 6) == BitsOf(b[i - 1], 8) + Rest(g, i + 1)
  {
    hide BitsOf, And, ToByte;
    JoinedValues(g[i - 1], g[i]);
    if i == 1 {
      JoinFirst(g[0], g[1] / 16, g[1] % 16);
    } else if i == 2 {
      JoinSecond(g[1] % 16, g[2] / 4, g[2] % 4);
    } else {
      JoinThird(g[2] % 4, g[3]);
    }
  }

  lemma JoinFirst(a: int, bh: int, bl: int)
    requires 0 <= bh < 4 && 0 <= bl < 16
    ensures BitsOf(a, 6) + BitsOf(16 * bh + bl, 6) == BitsOf(4 * a + bh, 8) + BitsOf(bl, 4)
  {
    hide BitsOf;
    Pow2Values();
    BitsJoin(bh, bl, 2, 4);
    BitsJoin(a, bh, 6, 2);
    Link(BitsOf(a, 6), BitsOf(16 * bh + bl, 6), BitsOf(bh, 2), BitsOf(bl, 4), BitsOf(4 * a + bh, 8));
  }

  lemma JoinSecond(bl: int, ch: int, cl: int)
    requires 0 <= ch < 16 && 0 <= cl < 4
    ensures BitsOf(bl, 4) + BitsOf(4 * ch + cl, 6) == BitsOf(16 * bl + ch, 8) + BitsOf(cl, 2)
  {
    hide BitsOf;
    Pow2Values();
    BitsJoin(ch, cl, 4, 2);
    BitsJoin(bl, ch, 4, 4);
    Link(BitsOf(bl, 4), BitsOf(4 * ch + cl, 6), BitsOf(ch, 4), BitsOf(cl, 2), BitsOf(16 * bl + ch, 8));
  }

  lemma JoinThird(cl: int, d: int)
    requires 0 <= d < 64
    ensures BitsOf(cl, 2) + BitsOf(d, 6) == BitsOf(64 * cl + d, 8) + []
  {
    hide BitsOf;
    Pow2Values();
    BitsJoin(cl, d, 2, 6);
  }

  /** Looks up `i` letters and appends the `i - 1` bytes they complete. */
  method AppendBytes(bytes: seq<byte>, letters: array<byte>, block: array<byte>, i: nat)
    returns (ret: seq<byte>)
    requires letters.Length == 4 && block.Length == 3 && letters != block
    requires 1 <= i <= 4 && forall k | 0 <= k < i :: IsLetter(letters[k])
    modifies letters, block
    ensures |ret| == |bytes| + i - 1 && |Rest(letters[..], i)| < 8
    ensures Stream(bytes, 8) + Stream(Codes(old(letters[..i])), 6) == Stream(ret, 8) + Rest(letters[..], i)
  {
    ghost var codes := Codes(letters[..i]);
    LookUp(letters);
    assert letters[..i] == codes;
    JoinBlock(letters, block, i);
    ret := bytes;
    for j := 0 to i - 1
      invariant ret == bytes + block[..j]
    {
      ret := ret + [block[j]];
    }
    StreamAppend(bytes, block[..i - 1], 8);
    Associative(Stream(bytes, 8), Stream(block[..i - 1], 8), Rest(letters[..], i));
  }

  lemma CodesAppend(t: seq<byte>, m: nat, n: nat)
    requires m <= n <= |t|
    ensures Stream(Codes(t[..n]), 6) == Stream(Codes(t[..m]), 6) + Stream(Codes(t[m..n]), 6)
  {
    assert Codes(t[..n]) == Codes(t[..m]) + Codes(t[m..n]);
    StreamAppend(Codes(t[..m]), Codes(t[m..n]), 6);
  }

  lemma NothingDecoded(t: seq<byte>)
    ensures Decoded(t, 0, [], [])
  {
    assert t[..0] == [];
  }

  lemma DecodedStep(t: seq<byte>, m: nat, n: nat, bytes: seq<byte>, ret: seq<byte>, rest: seq<bool>)
    requires m <= n <= |t| && Decoded(t, m, bytes, [])
    requires forall k | m <= k < n :: IsLetter(t[k])
    requires Stream(bytes, 8) + Stream(Codes(t[m..n]), 6) == Stream(ret, 8) + rest
    ensures Decoded(t, n, ret, rest)
  {
    hide Stream, BitsOf, Code;
    CodesAppend(t, m, n);
    assert Stream(bytes, 8) + [] == Stream(bytes, 8);
  }

  method Base64Decode(text: seq<byte>) returns (ret: seq<byte>)
    ensures ret == Decode(text)
  {
    hide Stream, Codes, Code, Decode;
    ret := [];
    var charArray4, charArray3 := new byte[4], new byte[3];
    var i, n := 0, 0;
    ghost var done, rest := 0, [];
    NothingDecoded(text);
    while n < |text| && text[n] != PAD && IsLetter(text[n])
      invariant 0 <= i < 4 && n == done + i <= |text|
      invariant forall k | 0 <= k < i :: charArray4[k] == text[done + k]
      invariant forall k | done <= k < n :: IsLetter(text[k])
      invariant Decoded(text, done, ret, [])
    {
      charArray4[i] := text[n];
      i, n := i + 1, n + 1;
      if i == 4 {
        ghost var before := ret;
        assert charArray4[..i] == text[done..n];
        ret := AppendBytes(ret, charArray4, charArray3, 4);
        DecodedStep(text, done, n, before, ret, []);
        i, done := 0, n;
      }
    }
    if i != 0 {
      for j := i to 4
        invariant forall k | 0 <= k < j :: charArray4[k] == if k < i then text[done + k] else 0
      {
        charArray4[j] := 0;
      }
      ghost var before := ret;
      assert charArray4[..i] == text[done..n];
      ret := AppendBytes(ret, charArray4, charArray3, i);
      rest := Rest(charArray4[..], i);
      DecodedStep(text, done, n, before, ret, rest);
    }
    DecodeIs(text, n, ret, rest);
  }
}
