/** The two percent-encoders and the percent-decoder of utils/codec.cpp. */
module UrlCodec {
  import opened Bits
  import opened Wrappers

  const PERCENT: byte := 37

  /** The value of a (signed) `char` holding the byte `b`. */
  function SignedChar(b: byte): int {
    if b < 128 then b else b - 256
  }

  predicate IsAlnum(c: int) {
    48 <= c <= 57 || 97 <= c <= 122 || 65 <= c <= 90
  }

  function Dec2HexChar(n: int): byte {
    if 0 <= n <= 9 then 48 + n
    else if 10 <= n <= 15 then 65 + n - 10
    else 0
  }

  function HexChar2Dec(c: byte): int {
    if 48 <= c <= 57 then c - 48
    else if 97 <= c <= 102 then c - 97 + 10
    else if 65 <= c <= 70 then c - 65 + 10
    else -1
  }

  // ----- escapeURL

  /** The characters that escapeURL copies: letters, digits, '/' and '.'. */
  predicate IsPlain(c: byte) {
    IsAlnum(c) || c == 47 || c == 46
  }

  function EscapedByte(c: byte): seq<byte> {
    if IsPlain(c) then [c] else [PERCENT, Dec2HexChar(c / 16), Dec2HexChar(c % 16)]
  }

  function Escaped(s: seq<byte>): seq<byte> {
    if s == [] then [] else EscapedByte(s[0]) + Escaped(s[1..])
  }

  lemma {:induction false} EscapedSnoc(s: seq<byte>, c: byte)
    ensures Escaped(s + [c]) == Escaped(s) + EscapedByte(c)
  {
    if s == [] {
      assert [] + [c] == [c];
      assert Escaped([c]) == EscapedByte(c) + Escaped([]);
    } else {
      EscapedSnoc(s[1..], c);
      assert (s + [c])[1..] == s[1..] + [c];
    }
  }

  method EscapeURL(url: seq<byte>) returns (result: seq<byte>)
    ensures result == Escaped(url)
  {
    result := [];
    for i := 0 to |url|
      invariant result == Escaped(url[..i])
    {
      assert url[..i + 1] == url[..i] + [url[i]];
      EscapedSnoc(url[..i], url[i]);
      var c := SignedChar(url[i]);
      if 48 <= c <= 57 || 97 <= c <= 122 || 65 <= c <= 90 || c == 47 || c == 46 {
        result := result + [url[i]];
      } else {
        var j := c;
        if j < 0 {
          j := j + 256;
        }
        var i1 := j / 16;
        var i0 := j - i1 * 16;
        result := result + [PERCENT];
        result := result + [Dec2HexChar(i1)];
        result := result + [Dec2HexChar(i0)];
      }
    }
    assert url[..|url|] == url;
  }

  // ----- deescapeURL

  /** The byte stored for the two characters after a '%'; they need not be hex digits. */
  function HexPair(c1: byte, c0: byte): byte {
    ToByte(HexChar2Dec(c1) * 16 + HexChar2Dec(c0))
  }

  /**
   * What deescapeURL returns. Reading at index `size()` gives the terminating NUL;
   * reading further, after a '%' in last place, has no defined result: None.
   */
  function Deescaped(t: seq<byte>): Option<seq<byte>> {
    if t == [] then Some([])
    else if t[0] != PERCENT then Append([t[0]], Deescaped(t[1..]))
    else if |t| == 1 then None
    else if |t| == 2 then Some([HexPair(t[1], 0)])
    else Append([HexPair(t[1], t[2])], Deescaped(t[3..]))
  }

  function Append(s: seq<byte>, r: Option<seq<byte>>): Option<seq<byte>> {
    match r
    case None => None
    case Some(s') => Some(s + s')
  }

  lemma AppendAppend(a: seq<byte>, b: seq<byte>, r: Option<seq<byte>>)
    ensures Append(a, Append(b, r)) == Append(a + b, r)
  {
    if r.Some? {
      Associative(a, b, r.value);
    }
  }

  method DeescapeURL(url: seq<byte>) returns (result: Option<seq<byte>>)
    ensures result == Deescaped(url)
  {
    var text := [];
    var i := 0;
    assert url[0..] == url && forall s: seq<byte> :: [] + s == s;
    while i < |url|
      invariant 0 <= i <= |url| && Deescaped(url) == Append(text, Deescaped(url[i..]))
    {
      ghost var rest := url[i..];
      var c := url[i];
      if c != PERCENT {
        assert rest[1..] == url[i + 1..];
        AppendAppend(text, [c], Deescaped(rest[1..]));
        text := text + [c];
      } else {
        i := i + 1;
        var c1 := if i < |url| then url[i] else 0;
        i := i + 1;
        if i > |url| {
          return None;
        }
        var c0 := if i < |url| then url[i] else 0;
        text := text + [HexPair(c1, c0)];
        if i == |url| {
          return Some(text);
        }
        assert rest[3..] == url[i + 1..];
        AppendAppend(text[..|text| - 1], [HexPair(c1, c0)], Deescaped(rest[3..]));
        assert text == text[..|text| - 1] + [HexPair(c1, c0)];
      }
      i := i + 1;
    }
    assert url[i..] == [] && text + [] == text;
    result := Some(text);
  }

  // ----- where decoding is undefined

  /** Decoding the text takes up a new character or escape at index `k`. */
  predicate StartsAt(t: seq<byte>, k: nat)
    requires k < |t|
  {
    || k == 0
    || (t[k - 1] != PERCENT && StartsAt(t, k - 1))
    || (k >= 3 && t[k - 3] == PERCENT && StartsAt(t, k - 3))
  }

  lemma {:induction false} StartsAtShift(t: seq<byte>, d: nat, k: nat)
    requires d + k < |t| && d == if t[0] == PERCENT then 3 else 1
    ensures StartsAt(t, d + k) <==> StartsAt(t[d..], k)
  {
    if k == 0 {
      assert StartsAt(t, 0);
    } else {
      StartsAtShift(t, d, k - 1);
      if k >= 3 {
        StartsAtShift(t, d, k - 3);
      } else {
        assert d == 3 ==> !StartsAt(t, 1) && !StartsAt(t, 2);
      }
    }
  }

  /** A '%' that is the last character and starts an escape. */
  predicate EndsInEscape(t: seq<byte>) {
    t != [] && t[|t| - 1] == PERCENT && StartsAt(t, |t| - 1)
  }

  /** deescapeURL reads past the text exactly when a '%' in last place starts an escape. */
  lemma {:induction false} UndefinedExactly(t: seq<byte>)
    ensures Deescaped(t).None? <==> EndsInEscape(t)
  {
    if t == [] {
      assert Deescaped(t).Some?;
    } else {
      var d := if t[0] == PERCENT then 3 else 1;
      if |t| > d {
        StartsAtShift(t, d, |t| - d - 1);
        UndefinedExactly(t[d..]);
      } else if |t| == 3 {
        assert t[3..] == [] && !StartsAt(t, 1) && !StartsAt(t, 2);
      } else if |t| == 2 {
        assert !StartsAt(t, 1);
      } else {
        assert |t| == 1 && (d == 1 ==> t[1..] == []);
      }
    }
  }

  /** "a%" has no decoding; "%%" and "%2%" end in '%' as well, but have one. */
  lemma TrailingPercent()
    ensures Deescaped([97, PERCENT]).None?
    ensures Deescaped([PERCENT, PERCENT]).Some? && Deescaped([PERCENT, 50, PERCENT]).Some?
  {
    UndefinedExactly([97, PERCENT]);
    UndefinedExactly([PERCENT, PERCENT]);
    UndefinedExactly([PERCENT, 50, PERCENT]);
    assert StartsAt([97, PERCENT], 0);
  }

  // ----- escaping and decoding

  lemma HexDigits(n: int)
    requires 0 <= n < 16
    ensures HexChar2Dec(Dec2HexChar(n)) == n
  {
  }

  /** Both hex digits of a byte give it back. */
  lemma HexPairOfByte(c: byte)
    ensures HexPair(Dec2HexChar(c / 16), Dec2HexChar(c % 16)) == c
  {
    HexDigits(c / 16);
    HexDigits(c % 16);
  }

  lemma DeescapeTriple(a: byte, b: byte, t: seq<byte>)
    ensures Deescaped([PERCENT, a, b] + t) == Append([HexPair(a, b)], Deescaped(t))
  {
    assert ([PERCENT, a, b] + t)[3..] == t;
  }

  lemma DeescapePlain(c: byte, t: seq<byte>)
    requires c != PERCENT
    ensures Deescaped([c] + t) == Append([c], Deescaped(t))
  {
    assert ([c] + t)[1..] == t;
  }

  lemma DeescapeByte(c: byte, t: seq<byte>)
    ensures Deescaped(EscapedByte(c) + t) == Append([c], Deescaped(t))
  {
    if IsPlain(c) {
      DeescapePlain(c, t);
    } else {
      HexPairOfByte(c);
      DeescapeTriple(Dec2HexChar(c / 16), Dec2HexChar(c % 16), t);
    }
  }

  /** Decoding undoes escapeURL, for every byte string, and never reads past the text. */
  lemma {:induction false} DeescapeEscape(s: seq<byte>)
    ensures Deescaped(Escaped(s)) == Some(s)
  {
    if s == [] {
    } else {
      DeescapeEscape(s[1..]);
      DeescapeByte(s[0], Escaped(s[1..]));
      assert [s[0]] + s[1..] == s;
    }
  }

  /** The text's first token is one that escapeURL writes: a plain character or an upper-case escape. */
  predicate IsToken(t: seq<byte>) {
    || (|t| == 1 && IsPlain(t[0]))
    || (|t| == 3 && t[0] == PERCENT && IsUpperHex(t[1]) && IsUpperHex(t[2]) && !IsPlain(HexPair(t[1], t[2])))
  }

  predicate IsUpperHex(c: byte) {
    48 <= c <= 57 || 65 <= c <= 70
  }

  /** A text made of nothing but plain characters and upper-case escapes of the others. */
  predicate IsEscaped(t: seq<byte>) {
    if t == [] then true
    else if t[0] == PERCENT then |t| >= 3 && IsToken(t[..3]) && IsEscaped(t[3..])
    else IsToken(t[..1]) && IsEscaped(t[1..])
  }

  lemma UpperHex(c: byte)
    requires IsUpperHex(c)
    ensures 0 <= HexChar2Dec(c) < 16 && Dec2HexChar(HexChar2Dec(c)) == c
  {
  }

  lemma UpperHexPair(a: byte, b: byte)
    requires IsUpperHex(a) && IsUpperHex(b)
    ensures Dec2HexChar(HexPair(a, b) / 16) == a && Dec2HexChar(HexPair(a, b) % 16) == b
  {
    hide HexChar2Dec, Dec2HexChar;
    UpperHex(a);
    UpperHex(b);
    assert HexPair(a, b) == HexChar2Dec(a) * 16 + HexChar2Dec(b);
  }

  lemma {:induction false} EscapeIsEscaped(s: seq<byte>)
    ensures IsEscaped(Escaped(s))
  {
    if s == [] {
    } else {
      EscapeIsEscaped(s[1..]);
      var c, rest := s[0], Escaped(s[1..]);
      var t := EscapedByte(c) + rest;
      if IsPlain(c) {
        assert t[..1] == [c] && t[1..] == rest;
      } else {
        HexPairOfByte(c);
        assert t[..3] == EscapedByte(c) && t[3..] == rest;
      }
    }
  }

  lemma EscapedCons(c: byte, s: seq<byte>)
    ensures Escaped([c] + s) == EscapedByte(c) + Escaped(s)
  {
    assert ([c] + s)[1..] == s;
  }

  /** A token is the escape of the byte it is decoded to. */
  lemma DeescapeToken(t: seq<byte>, rest: seq<byte>) returns (c: byte)
    requires IsToken(t)
    ensures EscapedByte(c) == t
    ensures Deescaped(t + rest) == Append([c], Deescaped(rest))
  {
    hide Deescaped, HexChar2Dec, Dec2HexChar;
    if |t| == 1 {
      c := t[0];
      DeescapePlain(c, rest);
      assert t == [c];
    } else {
      c := HexPair(t[1], t[2]);
      UpperHexPair(t[1], t[2]);
      DeescapeTriple(t[1], t[2], rest);
      assert t == [PERCENT, t[1], t[2]];
    }
  }

  lemma {:induction false} EscapeDeescapeEscaped(t: seq<byte>)
    requires IsEscaped(t)
    ensures Deescaped(t).Some? && Escaped(Deescaped(t).value) == t
  {
    if t == [] {
    } else {
      var n := if t[0] == PERCENT then 3 else 1;
      assert t == t[..n] + t[n..];
      EscapeDeescapeEscaped(t[n..]);
      var c := DeescapeToken(t[..n], t[n..]);
      EscapedCons(c, Deescaped(t[n..]).value);
    }
  }

  /** Escaping a decoded text returns the text exactly when escapeURL could have written it. */
  lemma EscapeDeescape(t: seq<byte>)
    ensures Deescaped(t).Some? && Escaped(Deescaped(t).value) == t <==> IsEscaped(t)
    ensures (exists s :: Escaped(s) == t) <==> IsEscaped(t)
  {
    if IsEscaped(t) {
      EscapeDeescapeEscaped(t);
    }
    if s :| Escaped(s) == t {
      EscapeIsEscaped(s);
    }
  }

  // ----- urlEncode

  /** What `strlen` sees: the bytes before the first NUL. */
  function CString(s: seq<byte>): seq<byte> {
    if s == [] || s[0] == 0 then [] else [s[0]] + CString(s[1..])
  }

  /** `%X`: upper-case hex digits without leading zeros. */
  function PrintHex(x: nat): seq<byte> {
    if x < 16 then [Dec2HexChar(x)] else PrintHex(x / 16) + [Dec2HexChar(x % 16)]
  }

  /** A `char` passed to `%X` is converted to `int` and printed as a 32-bit `unsigned`. */
  function AsUnsigned(c: int): nat {
    c % 0x1_0000_0000
  }

  /** The characters that urlEncode copies. */
  predicate IsUnreserved(c: int) {
    IsAlnum(c) || c == 45 || c == 95 || c == 46 || c == 126
  }

  function UrlEncodedByte(b: byte): seq<byte> {
    var c := SignedChar(b);
    if IsUnreserved(c) then [b]
    else (if c < 16 then [PERCENT, 48] else [PERCENT]) + PrintHex(AsUnsigned(c))
  }

  function UrlEncodedString(s: seq<byte>): seq<byte> {
    if s == [] then [] else UrlEncodedByte(s[0]) + UrlEncodedString(s[1..])
  }

  function UrlEncoded(s: seq<byte>): seq<byte> {
    UrlEncodedString(CString(s))
  }

  lemma {:induction false} UrlEncodedAppend(a: seq<byte>, b: seq<byte>)
    ensures UrlEncodedString(a + b) == UrlEncodedString(a) + UrlEncodedString(b)
  {
    hide UrlEncodedByte;
    if a == [] {
      assert a + b == b;
    } else {
      UrlEncodedAppend(a[1..], b);
      assert (a + b)[1..] == a[1..] + b;
      Associative(UrlEncodedByte(a[0]), UrlEncodedString(a[1..]), UrlEncodedString(b));
    }
  }

  lemma UrlEncodedSnoc(s: seq<byte>, c: byte)
    ensures UrlEncodedString(s + [c]) == UrlEncodedString(s) + UrlEncodedByte(c)
  {
    hide UrlEncodedByte;
    UrlEncodedAppend(s, [c]);
    assert UrlEncodedString([c]) == UrlEncodedByte(c) + UrlEncodedString([]);
  }

  lemma UrlEncodedNothing()
    ensures UrlEncodedString([]) == []
  {
  }

  method UrlEncode(str: seq<byte>) returns (newStr: seq<byte>)
    ensures newStr == UrlEncoded(str)
  {
    hide PrintHex, UrlEncodedString;
    assert UrlEncodedString([]) == [] by { UrlEncodedNothing(); }
    newStr := [];
    var chars := CString(str);
    for i := 0 to |chars|
      invariant newStr == UrlEncodedString(chars[..i])
    {
      assert chars[..i + 1] == chars[..i] + [chars[i]];
      UrlEncodedSnoc(chars[..i], chars[i]);
      var c := SignedChar(chars[i]);
      if IsAlnum(c) || c == 45 || c == 95 || c == 46 || c == 126 {
        newStr := newStr + [chars[i]];
      } else {
        var bufHex := PrintHex(AsUnsigned(c));
        if c < 16 {
          newStr := newStr + [PERCENT, 48];
        } else {
          newStr := newStr + [PERCENT];
        }
        newStr := newStr + bufHex;
      }
    }
    assert chars[..|chars|] == chars;
  }

  predicate IsAscii(s: seq<byte>) {
    forall i | 0 <= i < |s| :: 1 <= s[i] <= 127
  }

  /** A byte below 128 that is not copied becomes '%' and two digits. */
  lemma UrlEncodedLow(b: byte)
    requires b < 128 && !IsUnreserved(b)
    ensures UrlEncodedByte(b) == [PERCENT, Dec2HexChar(b / 16), Dec2HexChar(b % 16)]
  {
    hide PrintHex;
    assert AsUnsigned(b) == b;
    if b < 16 {
      PrintDigit(b);
    } else {
      PrintHexStep(b, b / 16, b % 16);
      PrintDigit(b / 16);
    }
  }

  lemma PrintDigit(n: nat)
    requires n < 16
    ensures PrintHex(n) == [Dec2HexChar(n)]
  {
  }

  lemma PrintHexStep(x: nat, q: nat, r: nat)
    requires x == 16 * q + r && q > 0 && r < 16
    ensures PrintHex(x) == PrintHex(q) + [Dec2HexChar(r)]
  {
    hide Dec2HexChar;
  }

  /** The seven characters that follow "%0F" for a byte above 127. */
  function HighTail(b: byte): seq<byte> {
    [70, 70, 70, 70, 70, Dec2HexChar(b / 16), Dec2HexChar(b % 16)]
  }

  lemma UrlEncodedHigh(b: byte)
    requires b >= 128
    ensures UrlEncodedByte(b) == [PERCENT, 48, 70] + HighTail(b)
  {
    hide PrintHex;
    assert AsUnsigned(SignedChar(b)) == 0xFFFF_FF00 + b;
    PrintHexStep(0xFFFF_FF00 + b, 0xFFF_FFF0 + b / 16, b % 16);
    PrintHexStep(0xFFF_FFF0 + b / 16, 0xFF_FFFF, b / 16);
    SixDigits();
  }

  lemma SixDigits()
    ensures PrintHex(0xFF_FFFF) == [70, 70, 70, 70, 70, 70]
  {
    PrintHexStep(0xFF_FFFF, 0xF_FFFF, 15);
    PrintHexStep(0xF_FFFF, 0xFFFF, 15);
    PrintHexStep(0xFFFF, 0xFFF, 15);
    PrintHexStep(0xFFF, 0xFF, 15);
    PrintHexStep(0xFF, 0xF, 15);
  }

  lemma DeescapeUrlEncodedByte(b: byte, t: seq<byte>)
    requires b < 128
    ensures Deescaped(UrlEncodedByte(b) + t) == Append([b], Deescaped(t))
  {
    if IsUnreserved(b) {
      DeescapePlain(b, t);
    } else {
      UrlEncodedLow(b);
      HexPairOfByte(b);
      DeescapeTriple(Dec2HexChar(b / 16), Dec2HexChar(b % 16), t);
    }
  }

  lemma {:induction false} CStringPrefix(s: seq<byte>)
    ensures CString(s) <= s
    ensures CString(s) == s <==> 0 !in s
    ensures 0 !in CString(s)
    ensures |CString(s)| < |s| ==> s[|CString(s)|] == 0
  {
    if s == [] || s[0] == 0 {
    } else {
      CStringPrefix(s[1..]);
    }
  }

  lemma {:induction false} DeescapeUrlEncodedPrefix(s: seq<byte>, t: seq<byte>)
    requires forall i | 0 <= i < |s| :: s[i] < 128
    ensures Deescaped(UrlEncodedString(s) + t) == Append(s, Deescaped(t))
  {
    hide UrlEncodedByte;
    if s == [] {
      assert UrlEncodedString(s) + t == t;
      AppendNothing(Deescaped(t));
    } else {
      DeescapeUrlEncodedPrefix(s[1..], t);
      Associative(UrlEncodedByte(s[0]), UrlEncodedString(s[1..]), t);
      DeescapeUrlEncodedByte(s[0], UrlEncodedString(s[1..]) + t);
      AppendAppend([s[0]], s[1..], Deescaped(t));
      assert [s[0]] + s[1..] == s;
    }
  }

  lemma DeescapeUrlEncodedWhole(s: seq<byte>)
    requires forall i | 0 <= i < |s| :: s[i] < 128
    ensures Deescaped(UrlEncodedString(s)) == Some(s)
  {
    DeescapeUrlEncodedPrefix(s, []);
    assert UrlEncodedString(s) + [] == UrlEncodedString(s) && s + [] == s;
  }

  lemma AppendNothing(r: Option<seq<byte>>)
    ensures Append([], r) == r
  {
    assert r.Some? ==> [] + r.value == r.value;
  }

  /** The first byte above 127 is decoded to 15, whatever follows it. */
  lemma DeescapeHighByte(s: seq<byte>, k: nat)
    requires k < |s| && s[k] >= 128 && forall i | 0 <= i < k :: s[i] < 128
    ensures var r := Deescaped(UrlEncodedString(s)); r.Some? ==> k < |r.value| && r.value[k] == 15
  {
    hide UrlEncodedByte, Deescaped, HighTail;
    var a, b, c := s[..k], s[k], s[k + 1..];
    var t := HighTail(b) + UrlEncodedString(c);
    assert s == a + ([b] + c);
    UrlEncodedAppend(a, [b] + c);
    assert ([b] + c)[1..] == c;
    UrlEncodedHigh(b);
    Associative([PERCENT, 48, 70], HighTail(b), UrlEncodedString(c));
    DeescapeUrlEncodedPrefix(a, [PERCENT, 48, 70] + t);
    DeescapeTriple(48, 70, t);
    assert HexPair(48, 70) == 15;
  }

  lemma {:induction false} FirstHigh(s: seq<byte>) returns (k: nat)
    ensures k <= |s| && (forall i | 0 <= i < k :: s[i] < 128) && (k < |s| ==> s[k] >= 128)
  {
    if s == [] || s[0] >= 128 {
      k := 0;
    } else {
      k := FirstHigh(s[1..]);
      k := k + 1;
    }
  }

  /** Decoding undoes urlEncode exactly for strings of bytes from 1 to 127. */
  lemma DeescapeUrlEncode(s: seq<byte>)
    ensures Deescaped(UrlEncoded(s)) == Some(s) <==> IsAscii(s)
  {
    hide UrlEncodedString, Deescaped;
    var chars := CString(s);
    CStringPrefix(s);
    var k := FirstHigh(chars);
    if k < |chars| {
      DeescapeHighByte(chars, k);
      assert chars[k] == s[k];
    } else {
      DeescapeUrlEncodedWhole(chars);
      if chars == s {
        assert forall i | 0 <= i < |s| :: s[i] in s;
      } else {
        assert exists i :: 0 <= i < |s| && s[i] == 0;
      }
    }
  }

  /** The two encoders escape different characters, but decode to the same text. */
  lemma SameText(s: seq<byte>)
    requires IsAscii(s)
    ensures Deescaped(UrlEncoded(s)) == Deescaped(Escaped(s)) == Some(s)
  {
    DeescapeUrlEncode(s);
    DeescapeEscape(s);
  }

  /** Beyond those bytes urlEncode is not injective: every byte above 127 collides with a longer text. */
  lemma UrlEncodeCollision(b: byte)
    requires b >= 128
    ensures UrlEncoded([b]) == UrlEncoded([15] + HighTail(b))
  {
    hide UrlEncodedByte;
    var tail := HighTail(b);
    CStringPrefix([b]);
    CStringPrefix([15] + tail);
    UrlEncodedHigh(b);
    UrlEncodedLow(15);
    UrlEncodedAppend([15], tail);
    UrlEncodedCopy(tail);
    assert UrlEncodedString([b]) == UrlEncodedByte(b) + UrlEncodedString([]);
    assert UrlEncodedString([15]) == UrlEncodedByte(15) + UrlEncodedString([]);
  }

  lemma {:induction false} UrlEncodedCopy(s: seq<byte>)
    requires forall i | 0 <= i < |s| :: s[i] < 128 && IsUnreserved(s[i])
    ensures UrlEncodedString(s) == s
  {
    if s == [] {
    } else {
      UrlEncodedCopy(s[1..]);
      assert [s[0]] + s[1..] == s;
    }
  }

  lemma UrlEncodedByteAlphabet(b: byte)
    ensures forall i | 0 <= i < |UrlEncodedByte(b)| ::
      IsUnreserved(UrlEncodedByte(b)[i]) || UrlEncodedByte(b)[i] == PERCENT
  {
    if b >= 128 {
      UrlEncodedHigh(b);
    } else if !IsUnreserved(b) {
      UrlEncodedLow(b);
    }
  }

  /** What urlEncode writes: unreserved characters and '%'. */
  lemma {:induction false} UrlEncodedAlphabet(s: seq<byte>)
    ensures forall i | 0 <= i < |UrlEncodedString(s)| ::
      IsUnreserved(UrlEncodedString(s)[i]) || UrlEncodedString(s)[i] == PERCENT
  {
    hide UrlEncodedByte, IsUnreserved;
    if s == [] {
    } else {
      UrlEncodedByteAlphabet(s[0]);
      UrlEncodedAlphabet(s[1..]);
    }
  }

  // ----- the characters themselves

  const UPPER: string := "0123456789ABCDEF"
  const LOWER: string := "0123456789abcdef"

  lemma UpperDigit(i: int)
    requires 0 <= i < 16
    ensures |UPPER| == 16 && Dec2HexChar(i) == UPPER[i] as int && HexChar2Dec(UPPER[i] as int) == i
  {
  }

  lemma LowerDigit(i: int)
    requires 0 <= i < 16
    ensures |LOWER| == 16 && HexChar2Dec(LOWER[i] as int) == i
  {
  }

  /** Digits are read in either case; other characters count as -1. */
  lemma HexDigitIs(c: byte)
    ensures |UPPER| == |LOWER| == 16
    ensures forall i | 0 <= i < 16 && (UPPER[i] as int == c || LOWER[i] as int == c) :: HexChar2Dec(c) == i
    ensures (forall i | 0 <= i < 16 :: UPPER[i] as int != c && LOWER[i] as int != c) ==> HexChar2Dec(c) == -1
  {
    hide UPPER, LOWER;
    UpperDigit(0);
    LowerDigit(0);
    forall i | 0 <= i < 16 && (UPPER[i] as int == c || LOWER[i] as int == c) ensures HexChar2Dec(c) == i {
      UpperDigit(i);
      LowerDigit(i);
    }
    if 97 <= c <= 102 {
      LowerDigitAt(c - 97);
    } else if 48 <= c <= 57 {
      UpperDigit(c - 48);
    } else if 65 <= c <= 70 {
      UpperDigit(c - 55);
    }
  }

  lemma LowerDigitAt(i: int)
    requires 0 <= i < 6
    ensures |LOWER| == 16 && LOWER[i + 10] as int == i + 97
  {
  }

  /** What a '%' and the two characters after it become; one character before the NUL is completed with it. */
  lemma DeescapePercent(a: byte, b: byte, t: seq<byte>)
    ensures Deescaped(['%' as int, a, b] + t)
         == Append([(HexChar2Dec(a) * 16 + HexChar2Dec(b)) % 256], Deescaped(t))
    ensures Deescaped(['%' as int, a]) == Some([(HexChar2Dec(a) * 16 - 1) % 256])
  {
    DeescapeTriple(a, b, t);
  }

  /** escapeURL copies letters, digits, '/' and '.'; any other byte becomes '%' and two upper-case digits. */
  lemma EscapeOne(c: byte)
    ensures |UPPER| == 16
    ensures Escaped([c]) ==
      if '0' as int <= c <= '9' as int || 'a' as int <= c <= 'z' as int || 'A' as int <= c <= 'Z' as int
         || c == '/' as int || c == '.' as int then [c]
      else ['%' as int, UPPER[c / 16] as int, UPPER[c % 16] as int]
  {
    hide UPPER, Dec2HexChar;
    UpperDigit(c / 16);
    UpperDigit(c % 16);
    assert [c][1..] == [];
  }

  /**
   * urlEncode copies letters, digits, '-', '_', '.' and '~'; any other byte up to 127 becomes
   * '%' and two upper-case digits, and a byte above 127 "%0FFFFFF" and two digits.
   */
  lemma UrlEncodeOne(c: byte)
    ensures |UPPER| == 16
    ensures UrlEncodedString([c]) ==
      if c >= 128 then ['%' as int, '0' as int, 'F' as int, 'F' as int, 'F' as int, 'F' as int, 'F' as int, 'F' as int,
                        UPPER[c / 16] as int, UPPER[c % 16] as int]
      else if '0' as int <= c <= '9' as int || 'a' as int <= c <= 'z' as int || 'A' as int <= c <= 'Z' as int
         || c == '-' as int || c == '_' as int || c == '.' as int || c == '~' as int then [c]
      else ['%' as int, UPPER[c / 16] as int, UPPER[c % 16] as int]
  {
    hide UPPER, Dec2HexChar, PrintHex;
    UpperDigit(c / 16);
    UpperDigit(c % 16);
    assert [c][1..] == [] && UrlEncodedString([c]) == UrlEncodedByte(c);
    if c >= 128 {
      UrlEncodedHigh(c);
    } else if !IsUnreserved(c) {
      UrlEncodedLow(c);
    }
  }
}
