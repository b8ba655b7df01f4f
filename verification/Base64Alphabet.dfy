/** Base 64 in terms of its alphabet, written out: what encoders and decoders do, character by character. */
module Base64Alphabet {
  import opened Bits
  import opened Base64Spec
  import opened Base64Codec

  /** `base64_chars`; the accumulator loops contain the same characters. */
  const ALPHABET: string := "ABCDEFGHIJKLMNOPQRSTUVWXYZ" + "abcdefghijklmnopqrstuvwxyz" + "0123456789" + "+/"

  lemma UpperCase(i: nat)
    requires i < 26
    ensures "ABCDEFGHIJKLMNOPQRSTUVWXYZ"[i] as int == 65 + i
  {
  }

  lemma LowerCase(i: nat)
    requires i < 26
    ensures "abcdefghijklmnopqrstuvwxyz"[i] as int == 97 + i
  {
  }

  lemma Digit(i: nat)
    requires i < 10
    ensures "0123456789"[i] as int == 48 + i
  {
  }

  lemma PartSizes()
    ensures |"ABCDEFGHIJKLMNOPQRSTUVWXYZ"| == |"abcdefghijklmnopqrstuvwxyz"| == 26 && |"0123456789"| == 10
  {
  }

  lemma PartAt(u: string, l: string, d: string, s: string, i: nat)
    requires |u| == |l| == 26 && |d| == 10 && |s| == 2 && i < 64
    ensures (u + l + d + s)[i] == if i < 26 then u[i] else if i < 52 then l[i - 26]
      else if i < 62 then d[i - 52] else s[i - 62]
  {
  }

  /** The letters are the characters of the alphabet, in its order. */
  lemma LetterInAlphabet(i: sextet)
    ensures |ALPHABET| == 64 && Letter(i) == ALPHABET[i] as int
  {
    PartSizes();
    PartAt("ABCDEFGHIJKLMNOPQRSTUVWXYZ", "abcdefghijklmnopqrstuvwxyz", "0123456789", "+/", i);
    if i < 26 {
      UpperCase(i);
    } else if i < 52 {
      LowerCase(i - 26);
    } else if i < 62 {
      Digit(i - 52);
    }
  }

  /** A character is a letter exactly if it occurs in the alphabet, and its code is where. */
  lemma LetterOccurs(c: byte)
    ensures |ALPHABET| == 64
    ensures IsLetter(c) <==> exists i :: 0 <= i < 64 && ALPHABET[i] as int == c
    ensures forall i | 0 <= i < 64 && ALPHABET[i] as int == c :: Code(c) == i
    ensures Find(c) == if IsLetter(c) then Code(c) else 255
  {
    hide ALPHABET, Letter, Code, IsLetter;
    LetterInAlphabet(0);
    if IsLetter(c) {
      LetterInAlphabet(Code(c));
    }
    forall i | 0 <= i < 64 && ALPHABET[i] as int == c ensures IsLetter(c) && Code(c) == i {
      LetterInAlphabet(i);
      CodeOfLetter(i);
    }
  }

  // ----- encoding

  lemma {:induction false} GroupAt(b: seq<bool>, w: nat, k: nat)
    requires w > 0 && k < |Groups(b, w)|
    ensures w * k + w <= |b| && Groups(b, w)[k] == Number(b[w * k..w * k + w])
    decreases k
  {
    if k == 0 {
    } else {
      GroupAt(b[w..], w, k - 1);
      var m := w * (k - 1);
      assert w * k == m + w;
      assert b[w..][m..m + w] == b[m + w..m + w + w];
    }
  }

  /**
   * Character `k` of an encoding is the one that the alphabet has at the place given by bits
   * `6 * k` to `6 * k + 5` of the filled input; after the last of those only '=' follow.
   */
  lemma EncodeAt(bs: seq<byte>, k: nat)
    requires k < |Encode(bs)|
    ensures |ALPHABET| == 64 && |Filled(bs)| == 6 * SextetCount(|bs|)
    ensures k < SextetCount(|bs|) ==> 6 * k + 6 <= |Filled(bs)|
    ensures k < SextetCount(|bs|) ==> 0 <= Number(Filled(bs)[6 * k..6 * k + 6]) < 64
    ensures k < SextetCount(|bs|) ==> Encode(bs)[k] == ALPHABET[Number(Filled(bs)[6 * k..6 * k + 6])] as int
    ensures k >= SextetCount(|bs|) ==> Encode(bs)[k] == '=' as int
  {
    hide ALPHABET, Letter, Filled, Number, IsLetter, SextetCount, Missing, Groups;
    StreamLength(Sextets(bs), 6);
    LetterInAlphabet(0);
    if k < SextetCount(|bs|) {
      GroupAt(Filled(bs), 6, k);
      assert Pow2(6) == 64;
      LetterInAlphabet(Sextets(bs)[k]);
    }
  }

  lemma FourLetters(groups: seq<int>)
    requires |groups| <= 4 && Fits(groups, 6)
    ensures |ALPHABET| == 64 && |Letters(groups)| == |groups|
    ensures forall i | 0 <= i < |groups| ::
      0 <= groups[i] < 64 && Letters(groups)[i] == ALPHABET[groups[i]] as int
  {
    hide ALPHABET, Letter, IsLetter;
    Pow2Values();
    LetterInAlphabet(0);
    forall i | 0 <= i < |groups| ensures Letters(groups)[i] == ALPHABET[groups[i]] as int {
      LetterInAlphabet(groups[i]);
    }
  }

  /** Three bytes become four characters. */
  lemma EncodeThree(a: byte, b: byte, c: byte)
    ensures |ALPHABET| == 64
    ensures Encode([a, b, c]) == [ALPHABET[a / 4] as int, ALPHABET[a % 4 * 16 + b / 16] as int,
                                  ALPHABET[b % 16 * 4 + c / 64] as int, ALPHABET[c % 64] as int]
  {
    hide ALPHABET, Letters, Encode, Stream;
    var groups := [a / 4, 16 * (a % 4) + b / 16, 4 * (b % 16) + c / 64, c % 64];
    SplitCorrect(a, b, c, groups);
    EncodeFullBlock([a, b, c], groups);
    FourLetters(groups);
  }

  /** Two bytes at the end become three characters and one '='. */
  lemma EncodeTwo(a: byte, b: byte)
    ensures |ALPHABET| == 64
    ensures Encode([a, b]) == [ALPHABET[a / 4] as int, ALPHABET[a % 4 * 16 + b / 16] as int,
                               ALPHABET[b % 16 * 4] as int, '=' as int]
  {
    hide ALPHABET, Letters, Encode, Stream;
    var groups := [a / 4, 16 * (a % 4) + b / 16, 4 * (b % 16), 0];
    SplitCorrect(a, b, 0, groups);
    EncodeLastBlock(2, [a, b, 0], groups, [a, b]);
    FourLetters(groups[..3]);
  }

  /** One byte at the end becomes two characters and two '='. */
  lemma EncodeOne(a: byte)
    ensures |ALPHABET| == 64
    ensures Encode([a]) == [ALPHABET[a / 4] as int, ALPHABET[a % 4 * 16] as int, '=' as int, '=' as int]
  {
    hide ALPHABET, Letters, Encode, Stream;
    var groups := [a / 4, 16 * (a % 4), 0, 0];
    SplitCorrect(a, 0, 0, groups);
    EncodeLastBlock(1, [a, 0, 0], groups, [a]);
    FourLetters(groups[..2]);
  }

  // ----- decoding

  /** The characters are the letters at the places `groups`. */
  ghost predicate At(t: seq<byte>, groups: seq<int>) {
    && |ALPHABET| == 64 && |t| == |groups|
    && forall i | 0 <= i < |groups| :: 0 <= groups[i] < 64 && t[i] == ALPHABET[groups[i]] as int
  }

  lemma CodesAt(t: seq<byte>, groups: seq<int>)
    requires At(t, groups)
    ensures Codes(t) == groups && forall i | 0 <= i < |t| :: IsLetter(t[i])
  {
    hide ALPHABET, Code, IsLetter, Find;
    forall i | 0 <= i < |t| ensures Code(t[i]) == groups[i] && IsLetter(t[i]) {
      LetterOccurs(t[i]);
      assert ALPHABET[groups[i]] as int == t[i];
    }
  }

  /** What the bytes of a block have of its groups' bits. */
  lemma BlockBits(i: sextet, j: sextet, k: sextet, l: sextet, n: nat)
    requires 1 <= n <= 4
    ensures var g, b := [i, j, k, l], [4 * i + j / 16, 16 * (j % 16) + k / 4, 64 * (k % 4) + l];
      Stream(g[..n], 6) == Stream(b[..n - 1], 8) + Rest(g, n) && |Rest(g, n)| < 8
  {
    hide And, Stream;
    var g, b := [i, j, k, l], [4 * i + j / 16, 16 * (j % 16) + k / 4, 64 * (k % 4) + l];
    JoinedValues(i, j);
    JoinedValues(j, k);
    JoinedValues(k, l);
    JoinStream(g, b, n);
  }

  /** Four letters become three bytes, before whatever follows. */
  lemma DecodeFour(t: seq<byte>, i: sextet, j: sextet, k: sextet, l: sextet, rest: seq<byte>)
    requires |ALPHABET| == 64
    requires t == [ALPHABET[i] as int, ALPHABET[j] as int, ALPHABET[k] as int, ALPHABET[l] as int]
    ensures Decode(t + rest) == [4 * i + j / 16, j % 16 * 16 + k / 4, k % 4 * 64 + l] + Decode(rest)
  {
    hide ALPHABET, Stream, IsLetter, Code, Groups;
    var b := [4 * i + j / 16, 16 * (j % 16) + k / 4, 64 * (k % 4) + l];
    CodesAt(t, [i, j, k, l]);
    BlockBits(i, j, k, l, 4);
    assert [i, j, k, l][..4] == [i, j, k, l] && b[..3] == b;
    var n := LetterCount(rest);
    LetterCountIs(t + rest, 4 + n);
    assert (t + rest)[..4 + n] == t + rest[..n];
    assert Codes(t + rest[..n]) == Codes(t) + Codes(rest[..n]);
    StreamAppend(Codes(t), Codes(rest[..n]), 6);
    assert Stream(Codes(t), 6) == Stream(b, 8) + [] == Stream(b, 8);
    BytesFit(b);
    GroupsOfStream(b, Stream(Codes(rest[..n]), 6), 8);
  }

  /**
   * Up to three letters that end the text or come before a character that is none become
   * one byte fewer; what is left of their bits is dropped.
   */
  lemma DecodeTail(t: seq<byte>, n: nat, i: sextet, j: sextet, k: sextet)
    requires |ALPHABET| == 64 && n <= 3 && n <= |t|
    requires t[..n] == [ALPHABET[i] as int, ALPHABET[j] as int, ALPHABET[k] as int][..n]
    requires n < |t| ==> forall m | 0 <= m < 64 :: ALPHABET[m] as int != t[n]
    ensures Decode(t) == [4 * i + j / 16, j % 16 * 16 + k / 4][..if n == 0 then 0 else n - 1]
  {
    hide ALPHABET, Stream, IsLetter, Code, Groups, Decode, BitsOf;
    var b := [4 * i + j / 16, 16 * (j % 16) + k / 4, 64 * (k % 4) + 0];
    if n < |t| {
      LetterOccurs(t[n]);
    }
    CodesAt(t[..n], [i, j, k][..n]);
    assert forall m | 0 <= m < n :: t[m] == t[..n][m];
    if n == 0 {
      NothingDecoded(t);
      DecodeIs(t, 0, [], []);
    } else {
      BlockBits(i, j, k, 0, n);
      assert [i, j, k, 0][..n] == [i, j, k][..n];
      DecodeIs(t, n, b[..n - 1], Rest([i, j, k, 0], n));
    }
  }
}
