/** The query string that utils/misc.cpp makes of a parameter map. */
module QueryString {
  import opened Bits
  import opened Wrappers
  import opened Ordered
  import Base64Spec
  import UrlCodec

  type text = seq<byte>

  const AMP: byte := 38
  const EQ: byte := 61

  /** The order of `std::string` keys. */
  predicate Before(a: text, b: text) {
    if b == [] then false
    else if a == [] then true
    else a[0] < b[0] || (a[0] == b[0] && Before(a[1..], b[1..]))
  }

  lemma {:induction false} BeforeTransitive(a: text, b: text, c: text)
    requires Before(a, b) && Before(b, c)
    ensures Before(a, c)
  {
    if a == [] || b == [] || a[0] != b[0] || b[0] != c[0] {
    } else {
      BeforeTransitive(a[1..], b[1..], c[1..]);
    }
  }

  lemma {:induction false} BeforeTotal(a: text, b: text)
    ensures a == b ==> !Before(a, b)
    ensures a != b ==> Before(a, b) || Before(b, a)
  {
    if a == [] || b == [] || a[0] != b[0] {
    } else {
      BeforeTotal(a[1..], b[1..]);
      assert a == [a[0]] + a[1..] && b == [b[0]] + b[1..];
    }
  }

  lemma BeforeIsOrder()
    ensures StrictTotal(Before)
  {
    forall x: text, y: text ensures (x == y ==> !Before(x, y)) && (x != y ==> Before(x, y) || Before(y, x)) {
      BeforeTotal(x, y);
    }
    forall x: text, y: text, z: text | Before(x, y) && Before(y, z) ensures Before(x, z) {
      BeforeTransitive(x, y, z);
    }
  }

  /** The order is that of the bytes: `a` ends, or has the smaller byte, where the two first differ. */
  lemma BeforeIs(a: text, b: text)
    ensures Before(a, b) <==>
      exists k :: 0 <= k <= |a| && k < |b| && a[..k] == b[..k] && (k == |a| || a[k] < b[k])
  {
    if Before(a, b) {
      var k := FirstDifference(a, b);
    }
    if k :| 0 <= k <= |a| && k < |b| && a[..k] == b[..k] && (k == |a| || a[k] < b[k]) {
      DifferenceDecides(a, b, k);
    }
  }

  lemma {:induction false} FirstDifference(a: text, b: text) returns (k: nat)
    requires Before(a, b)
    ensures k <= |a| && k < |b| && a[..k] == b[..k] && (k == |a| || a[k] < b[k])
  {
    if a == [] || a[0] < b[0] {
      k := 0;
    } else {
      k := FirstDifference(a[1..], b[1..]);
      assert a == [a[0]] + a[1..] && b == [b[0]] + b[1..];
      assert a[..k + 1] == [a[0]] + a[1..][..k] && b[..k + 1] == [b[0]] + b[1..][..k];
      k := k + 1;
    }
  }

  lemma {:induction false} DifferenceDecides(a: text, b: text, k: nat)
    requires k <= |a| && k < |b| && a[..k] == b[..k] && (k == |a| || a[k] < b[k])
    ensures Before(a, b)
    decreases k
  {
    if k == 0 {
      assert b != [];
    } else {
      assert a[0] == a[..k][0] == b[..k][0] == b[0];
      assert a[1..][..k - 1] == a[..k][1..] && b[1..][..k - 1] == b[..k][1..];
      DifferenceDecides(a[1..], b[1..], k - 1);
    }
  }

  type pair = (text, text)

  /** The entries of a map in the order of its iterator. */
  function Entries(m: map<text, text>): (es: seq<pair>)
    ensures |es| == |InKeyOrder(m)|
    ensures forall i | 0 <= i < |es| :: es[i].0 == InKeyOrder(m)[i] && es[i].0 in m && es[i].1 == m[es[i].0]
  {
    var ks := InKeyOrder(m);
    seq(|ks|, i requires 0 <= i < |ks| => (ks[i], m[ks[i]]))
  }

  function InKeyOrder(m: map<text, text>): (ks: seq<text>)
    ensures forall k :: k in ks <==> k in m
  {
    BeforeIsOrder();
    InOrder(m.Keys, Before)
  }

  lemma EntriesDetermineMap(m: map<text, text>, n: map<text, text>)
    requires Entries(m) == Entries(n)
    ensures m == n
  {
    hide Before, InKeyOrder, Entries;
    forall i | 0 <= i < |InKeyOrder(m)| ensures InKeyOrder(m)[i] == InKeyOrder(n)[i] {
      assert Entries(m)[i].0 == InKeyOrder(m)[i];
    }
    assert InKeyOrder(m) == InKeyOrder(n);
    assert m.Keys == n.Keys;
    forall k | k in m ensures m[k] == n[k] {
      var i :| 0 <= i < |InKeyOrder(m)| && InKeyOrder(m)[i] == k;
      assert Entries(m)[i] == Entries(n)[i];
    }
  }

  function Item(e: pair): text {
    e.0 + [EQ] + e.1
  }

  /** The items separated by '&'. */
  function Joined(es: seq<pair>): text {
    if es == [] then []
    else if |es| == 1 then Item(es[0])
    else Item(es[0]) + ([AMP] + Joined(es[1..]))
  }

  /** The parameter string; for an empty map erasing the last character throws `std::out_of_range`. */
  function ParmStr(m: map<text, text>): Option<text> {
    if m == map[] then None else Some(Joined(Entries(m)))
  }

  lemma {:induction false} JoinedSnoc(es: seq<pair>, e: pair)
    requires es != []
    ensures Joined(es + [e]) == Joined(es) + ([AMP] + Item(e))
  {
    if |es| == 1 {
      assert (es + [e])[1..] == [e];
    } else {
      JoinedSnoc(es[1..], e);
      assert (es + [e])[1..] == es[1..] + [e];
      assert Item(es[0]) + ([AMP] + (Joined(es[1..]) + ([AMP] + Item(e))))
          == Item(es[0]) + ([AMP] + Joined(es[1..])) + ([AMP] + Item(e));
    }
  }

  /** The text built from the first `i` entries, each followed by '&'. */
  ghost predicate Built(text: text, es: seq<pair>, i: nat)
    requires i <= |es|
  {
    text == if i == 0 then [] else Joined(es[..i]) + [AMP]
  }

  lemma BuiltStep(text: text, es: seq<pair>, i: nat)
    requires i < |es| && Built(text, es, i)
    ensures Built(text + es[i].0 + [EQ] + es[i].1 + [AMP], es, i + 1)
  {
    var item := Item(es[i]);
    assert es[..i + 1] == es[..i] + [es[i]];
    assert text + es[i].0 + [EQ] + es[i].1 + [AMP] == text + item + [AMP];
    if i > 0 {
      JoinedSnoc(es[..i], es[i]);
      assert Joined(es[..i]) + [AMP] + item == Joined(es[..i]) + ([AMP] + item);
    }
  }

  method ParmmapToParmstr(mparm: map<text, text>) returns (retstr: Option<text>)
    ensures retstr == ParmStr(mparm)
  {
    hide Joined, Entries;
    var text: text := [];
    var entries := Entries(mparm);
    NoEntries(mparm);
    for i := 0 to |entries|
      invariant Built(text, entries, i)
    {
      BuiltStep(text, entries, i);
      text := text + entries[i].0;
      text := text + [EQ];
      text := text + entries[i].1;
      text := text + [AMP];
    }
    assert entries[..|entries|] == entries;
    if text == [] {
      return None;
    }
    text := text[..|text| - 1];
    retstr := Some(text);
  }

  lemma NoEntries(m: map<text, text>)
    ensures Entries(m) == [] <==> m == map[]
  {
    if m != map[] {
      var k :| k in m;
      assert k in InKeyOrder(m);
    }
  }

  // ----- reading the string back

  /** The parts between the '&'. */
  function Split(t: text): (parts: seq<text>)
    ensures parts != []
  {
    if t == [] then [[]]
    else
      var parts := Split(t[1..]);
      if t[0] == AMP then [[]] + parts else [[t[0]] + parts[0]] + parts[1..]
  }

  /** The name before the first '=' and the value after it. */
  function Cut(t: text): pair {
    if t == [] then ([], [])
    else if t[0] == EQ then ([], t[1..])
    else
      var (k, v) := Cut(t[1..]);
      ([t[0]] + k, v)
  }

  function Pairs(t: text): seq<pair> {
    var parts := Split(t);
    seq(|parts|, i requires 0 <= i < |parts| => Cut(parts[i]))
  }

  /** Nothing that would be taken for a separator. */
  predicate Clean(es: seq<pair>) {
    forall i | 0 <= i < |es| :: AMP !in es[i].0 && EQ !in es[i].0 && AMP !in es[i].1
  }

  function Count(t: text): nat {
    if t == [] then 0 else (if t[0] == AMP then 1 else 0) + Count(t[1..])
  }

  lemma {:induction false} CountAppend(a: text, b: text)
    ensures Count(a + b) == Count(a) + Count(b)
  {
    if a == [] {
      assert a + b == b;
    } else {
      CountAppend(a[1..], b);
      assert (a + b)[1..] == a[1..] + b;
    }
  }

  lemma {:induction false} CountZero(t: text)
    ensures Count(t) == 0 <==> AMP !in t
  {
    if t == [] {
    } else {
      CountZero(t[1..]);
      assert t == [t[0]] + t[1..];
    }
  }

  lemma {:induction false} SplitCount(t: text)
    ensures |Split(t)| == Count(t) + 1
  {
    if t == [] {
    } else {
      SplitCount(t[1..]);
    }
  }

  lemma {:induction false} SplitPart(a: text, b: text)
    requires AMP !in a
    ensures Split(a + ([AMP] + b)) == [a] + Split(b)
    ensures Split(a) == [a]
  {
    var t := a + ([AMP] + b);
    if a == [] {
      assert t == [AMP] + b && t[1..] == b;
    } else {
      SplitPart(a[1..], b);
      assert t[1..] == a[1..] + ([AMP] + b);
      assert a == [a[0]] + a[1..];
    }
  }

  lemma ItemCount(e: pair)
    ensures Count(Item(e)) == Count(e.0) + Count(e.1)
    ensures AMP !in Item(e) <==> AMP !in e.0 && AMP !in e.1
  {
    CountAppend(e.0 + [EQ], e.1);
    CountAppend(e.0, [EQ]);
  }

  /** Each item adds one separator, and as many as it contains itself. */
  lemma {:induction false} JoinedCount(es: seq<pair>)
    requires es != []
    ensures Count(Joined(es)) >= |es| - 1
    ensures Count(Joined(es)) == |es| - 1 ==> forall i | 0 <= i < |es| :: AMP !in Item(es[i])
  {
    CountZero(Item(es[0]));
    if |es| <= 1 {
    } else {
      JoinedCount(es[1..]);
      CountAppend(Item(es[0]), [AMP] + Joined(es[1..]));
      assert ([AMP] + Joined(es[1..]))[1..] == Joined(es[1..]);
      assert Count(Joined(es)) == |es| - 1 ==> forall i | 1 <= i < |es| :: es[i] == es[1..][i - 1];
    }
  }

  lemma {:induction false} SplitJoined(es: seq<pair>)
    requires es != [] && forall i | 0 <= i < |es| :: AMP !in Item(es[i])
    ensures |Split(Joined(es))| == |es|
    ensures forall i | 0 <= i < |es| :: Split(Joined(es))[i] == Item(es[i])
  {
    if |es| == 1 {
      SplitPart(Item(es[0]), []);
    } else {
      SplitJoined(es[1..]);
      SplitPart(Item(es[0]), Joined(es[1..]));
    }
  }

  lemma {:induction false} CutItem(k: text, v: text)
    ensures Cut(k + [EQ] + v) == (k, v) <==> EQ !in k
  {
    var t := k + [EQ] + v;
    if k == [] {
      assert t[1..] == v;
    } else {
      CutItem(k[1..], v);
      assert t[1..] == k[1..] + [EQ] + v;
      assert k == [k[0]] + k[1..];
      if k[0] != EQ {
        var c := Cut(t[1..]);
        assert [k[0]] + c.0 == k <==> c.0 == k[1..] by {
          assert ([k[0]] + c.0)[1..] == c.0;
        }
      }
    }
  }

  /** Reading the parameters back gives them exactly when they contain no separators. */
  lemma PairsOfJoined(es: seq<pair>)
    requires es != []
    ensures Pairs(Joined(es)) == es <==> Clean(es)
  {
    forall i | 0 <= i < |es|
      ensures AMP !in Item(es[i]) <==> AMP !in es[i].0 && AMP !in es[i].1
      ensures Cut(Item(es[i])) == es[i] <==> EQ !in es[i].0
    {
      ItemCount(es[i]);
      CutItem(es[i].0, es[i].1);
    }
    if Pairs(Joined(es)) == es {
      SplitCount(Joined(es));
      JoinedCount(es);
      SplitJoined(es);
      forall i | 0 <= i < |es| ensures AMP !in es[i].0 && EQ !in es[i].0 && AMP !in es[i].1 {
        assert Pairs(Joined(es))[i] == Cut(Item(es[i]));
      }
    }
    if Clean(es) {
      SplitJoined(es);
    }
  }

  /** The parameter string determines the map. */
  lemma ParmStrInjective(m: map<text, text>, n: map<text, text>)
    requires Clean(Entries(m)) && Clean(Entries(n))
    requires ParmStr(m) == ParmStr(n)
    ensures m == n
  {
    NoEntries(m);
    NoEntries(n);
    if m != map[] && n != map[] {
      PairsOfJoined(Entries(m));
      PairsOfJoined(Entries(n));
      EntriesDetermineMap(m, n);
    }
  }

  // ----- the signed request of exchange/huobipro.cpp

  /** Values that went through urlEncode contain no separators. */
  lemma UrlEncodedIsClean(s: text)
    ensures AMP !in UrlCodec.UrlEncoded(s) && EQ !in UrlCodec.UrlEncoded(s)
  {
    UrlCodec.UrlEncodedAlphabet(UrlCodec.CString(s));
  }

  const SIGNATURE: text := [83, 105, 103, 110, 97, 116, 117, 114, 101]

  /** The parameter string, "&Signature=" and the encoded digest. */
  function SignedQuery(m: map<text, text>, digest: seq<byte>): text
    requires m != map[]
  {
    ParmStr(m).value + ([AMP] + (SIGNATURE + [EQ] + UrlCodec.UrlEncoded(Base64Spec.Encode(digest))))
  }

  lemma EncodedDigestIsAscii(digest: seq<byte>)
    ensures UrlCodec.IsAscii(Base64Spec.Encode(digest))
  {
    Base64Spec.EncodeShape(digest);
  }

  lemma SignedQueryJoined(m: map<text, text>, digest: seq<byte>)
    requires m != map[]
    ensures SignedQuery(m, digest)
         == Joined(Entries(m) + [(SIGNATURE, UrlCodec.UrlEncoded(Base64Spec.Encode(digest)))])
  {
    hide Entries, Joined, Base64Spec.Encode, UrlCodec.UrlEncoded;
    NoEntries(m);
    JoinedSnoc(Entries(m), (SIGNATURE, UrlCodec.UrlEncoded(Base64Spec.Encode(digest))));
  }

  lemma CleanSnoc(es: seq<pair>, value: text)
    requires Clean(es) && AMP !in value
    ensures Clean(es + [(SIGNATURE, value)])
  {
  }

  /** A receiver recovers every parameter, in order, and the digest. */
  lemma SignedQueryRecovered(m: map<text, text>, digest: seq<byte>)
    requires m != map[] && Clean(Entries(m))
    ensures Pairs(SignedQuery(m, digest))
         == Entries(m) + [(SIGNATURE, UrlCodec.UrlEncoded(Base64Spec.Encode(digest)))]
    ensures UrlCodec.Deescaped(UrlCodec.UrlEncoded(Base64Spec.Encode(digest))) == Some(Base64Spec.Encode(digest))
    ensures Base64Spec.Decode(Base64Spec.Encode(digest)) == digest
  {
    hide *;
    var signature := Base64Spec.Encode(digest);
    SignedQueryJoined(m, digest);
    UrlEncodedIsClean(signature);
    CleanSnoc(Entries(m), UrlCodec.UrlEncoded(signature));
    PairsOfJoined(Entries(m) + [(SIGNATURE, UrlCodec.UrlEncoded(signature))]);
    EncodedDigestIsAscii(digest);
    UrlCodec.DeescapeUrlEncode(signature);
    Base64Spec.DecodeEncode(digest);
  }

  // ----- what the parameter string looks like

  lemma Separators()
    ensures AMP == '&' as int && EQ == '=' as int
    ensures |SIGNATURE| == 9 && forall i | 0 <= i < 9 :: SIGNATURE[i] == "Signature"[i] as int
  {
  }

  lemma KeysCons(m: map<text, text>, k: text)
    requires k in m && forall k' | k' in m && k' != k :: Before(k, k')
    ensures InKeyOrder(m) == [k] + InKeyOrder(m - {k})
  {
    hide Before, InOrder, Ascending, StrictTotal;
    BeforeIsOrder();
    var rest := InOrder((m - {k}).Keys, Before);
    forall k' ensures k' in rest <==> k' in m && k' != k {
      assert k' in rest <==> k' in (m - {k}).Keys;
    }
    AscendingCons(k, rest);
    InOrderUnique([k] + rest, m.Keys, Before);
  }

  lemma AscendingCons(k: text, rest: seq<text>)
    requires Ascending(rest, Before) && forall k' | k' in rest :: Before(k, k')
    ensures Ascending([k] + rest, Before)
  {
    hide Before;
    var ks := [k] + rest;
    forall i, j | 0 <= i < j < |ks| ensures Before(ks[i], ks[j]) {
      assert ks[j] == rest[j - 1] && (i > 0 ==> ks[i] == rest[i - 1]);
    }
  }

  lemma EntriesCons(m: map<text, text>, k: text)
    requires k in m && forall k' | k' in m && k' != k :: Before(k, k')
    ensures Entries(m) == [(k, m[k])] + Entries(m - {k})
  {
    hide Before, InKeyOrder;
    KeysCons(m, k);
  }

  /** The smallest key comes first, with '=' and its value; '&' and the other parameters follow. */
  lemma SmallestFirst(m: map<text, text>, k: text)
    requires k in m && forall k' | k' in m && k' != k :: Before(k, k')
    ensures ParmStr(m).Some? && (m != map[k := m[k]] ==> ParmStr(m - {k}).Some?)
    ensures ParmStr(m).value == k + ['=' as int] + m[k]
      + if m == map[k := m[k]] then [] else ['&' as int] + ParmStr(m - {k}).value
  {
    hide Before, Entries;
    EntriesCons(m, k);
    NoEntries(m - {k});
    if m - {k} == map[] {
      assert m == map[k := m[k]];
    } else {
      assert m != map[k := m[k]];
      assert ([(k, m[k])] + Entries(m - {k}))[1..] == Entries(m - {k});
    }
  }
}
