/** The attachment body that utils/SmtpMail.cpp writes, 54 bytes of the file to a line. */
module SmtpMail {
  import opened Bits
  import opened Base64Spec
  import opened Base64Codec

  const CRLF: seq<byte> := [13, 10]

  /** The bytes that the `i`-th read of 54 bytes gets; at the end of the file there may be fewer or none. */
  function Block(file: seq<byte>, i: nat): seq<byte> {
    if |file| <= 54 * i then []
    else if |file| <= 54 * i + 54 then file[54 * i..]
    else file[54 * i..54 * i + 54]
  }

  function Line(file: seq<byte>, i: nat): seq<byte> {
    Encode(Block(file, i))
  }

  function LineCount(file: seq<byte>): nat {
    |file| / 54 + 1
  }

  /** The first `k` lines, each with its line break. */
  function Body(file: seq<byte>, k: nat): seq<byte> {
    if k == 0 then [] else Body(file, k - 1) + (Line(file, k - 1) + CRLF)
  }

  /** The first `k` lines without line breaks. */
  function Joined(file: seq<byte>, k: nat): seq<byte> {
    if k == 0 then [] else Joined(file, k - 1) + Line(file, k - 1)
  }

  /** `fread(buf, 1, count, pt)` with the file position `pos`. */
  method ReadFile(file: seq<byte>, pos: nat, buf: array<byte>, count: nat) returns (n: nat)
    requires pos <= |file| && count <= buf.Length
    modifies buf
    ensures n == if |file| - pos < count then |file| - pos else count
    ensures buf[..n] == file[pos..pos + n]
  {
    n := 0;
    while n < count && pos + n < |file|
      invariant n <= count && pos + n <= |file|
      invariant forall k | 0 <= k < n :: buf[k] == file[pos + k]
    {
      buf[n] := file[pos + n];
      n := n + 1;
    }
  }

  lemma ReadBlock(file: seq<byte>, i: nat, pos: nat, n: nat)
    requires pos == if 54 * i <= |file| then 54 * i else |file|
    requires n == if |file| - pos < 54 then |file| - pos else 54
    ensures file[pos..pos + n] == Block(file, i)
  {
  }

  lemma AppendLine(m: seq<byte>, b: seq<byte>, line: seq<byte>)
    ensures m + b + line + CRLF == m + (b + (line + CRLF))
  {
  }

  class Mail {
    var strMessage: seq<byte>

    constructor ()
      ensures strMessage == []
    {
      strMessage := [];
    }

    /** The loop over the blocks of an attachment that could be opened. */
    method AppendAttachment(file: seq<byte>)
      modifies this
      ensures strMessage == old(strMessage) + Body(file, LineCount(file))
    {
      hide Encode;
      var len := |file|;
      var buf := new byte[55];
      var pos := 0;
      for i := 0 to len / 54 + 1
        invariant pos == if 54 * i <= |file| then 54 * i else |file|
        invariant strMessage == old(strMessage) + Body(file, i)
      {
        ghost var message := strMessage;
        for j := 0 to 55
          invariant strMessage == message
        {
          buf[j] := 0;
        }
        var rlen := ReadFile(file, pos, buf, 54);
        pos := pos + rlen;
        ReadBlock(file, i, pos - rlen, rlen);
        var line := Base64Encode(buf[..rlen]);
        AppendLine(old(strMessage), Body(file, i), line);
        strMessage := strMessage + line;
        strMessage := strMessage + CRLF;
      }
    }
  }

  /** What the first `k` reads get. */
  function Head(file: seq<byte>, k: nat): seq<byte> {
    if |file| <= 54 * k then file else file[..54 * k]
  }

  lemma HeadStep(file: seq<byte>, k: nat)
    ensures Head(file, k + 1) == Head(file, k) + Block(file, k)
  {
    var p := 54 * k;
    if |file| <= p {
      assert file + [] == file;
    } else if |file| <= p + 54 {
      assert file[..p] + file[p..] == file;
    } else {
      assert file[..p] + file[p..p + 54] == file[..p + 54];
    }
  }

  lemma HeadSize(file: seq<byte>, k: nat)
    requires Block(file, k) != []
    ensures |Head(file, k)| % 3 == 0
  {
    MultipleOfThree(|Head(file, k)|, 18 * k);
  }

  lemma MultipleOfThree(n: nat, q: nat)
    requires n == 3 * q
    ensures n % 3 == 0
  {
  }

  /** Whole blocks of 54 bytes are whole blocks of three, so the lines fit together. */
  lemma {:induction false} JoinedBlocks(file: seq<byte>, k: nat)
    ensures Joined(file, k) == Encode(Head(file, k))
  {
    hide Encode, Block, Head;
    EncodeNothing();
    if k == 0 {
      HeadNothing(file);
    } else {
      JoinedBlocks(file, k - 1);
      HeadStep(file, k - 1);
      if Block(file, k - 1) != [] {
        HeadSize(file, k - 1);
        EncodeAppend(Head(file, k - 1), Block(file, k - 1));
      } else {
        assert Head(file, k - 1) + [] == Head(file, k - 1);
        assert Joined(file, k - 1) + [] == Joined(file, k - 1);
      }
    }
  }

  lemma HeadNothing(file: seq<byte>)
    ensures Head(file, 0) == []
  {
  }

  lemma EncodeNothing()
    ensures Encode([]) == []
  {
    EncodeShape([]);
  }

  /** The lines of an attachment, put together, are the encoding of the whole file. */
  lemma ChunkingIsTransparent(file: seq<byte>)
    ensures Joined(file, LineCount(file)) == Encode(file)
  {
    JoinedBlocks(file, LineCount(file));
  }

  /**
   * Every line but the last has 72 characters and the last has fewer, so none exceeds the
   * 76 of section 6.8 of RFC 2045; the last line is empty exactly for multiples of 54 bytes.
   */
  lemma LineLengths(file: seq<byte>, i: nat)
    requires i < LineCount(file)
    ensures i + 1 < LineCount(file) ==> |Line(file, i)| == 72
    ensures i + 1 == LineCount(file) ==> |Line(file, i)| <= 72
    ensures i + 1 == LineCount(file) ==> (|Line(file, i)| == 0 <==> |file| % 54 == 0)
  {
    hide Encode, Block, LetterCount;
    BlockSize(file, i, |file| / 54);
    EncodeShape(Block(file, i));
  }

  lemma BlockSize(file: seq<byte>, i: nat, q: nat)
    requires i <= q && 54 * q <= |file| < 54 * q + 54
    ensures |Block(file, i)| == if i < q then 54 else |file| - 54 * q
  {
  }

  // ----- what a reader of the message gets back

  /** A text without its carriage returns and line feeds. */
  function WithoutBreaks(t: seq<byte>): seq<byte> {
    if t == [] then []
    else if t[0] == 13 || t[0] == 10 then WithoutBreaks(t[1..])
    else [t[0]] + WithoutBreaks(t[1..])
  }

  lemma {:induction false} WithoutBreaksAppend(a: seq<byte>, b: seq<byte>)
    ensures WithoutBreaks(a + b) == WithoutBreaks(a) + WithoutBreaks(b)
  {
    if a == [] {
      assert a + b == b;
    } else {
      WithoutBreaksAppend(a[1..], b);
      assert (a + b)[1..] == a[1..] + b;
      Associative([a[0]], WithoutBreaks(a[1..]), WithoutBreaks(b));
    }
  }

  lemma {:induction false} NoBreaks(t: seq<byte>)
    requires forall i | 0 <= i < |t| :: t[i] != 13 && t[i] != 10
    ensures WithoutBreaks(t) == t
  {
    if t == [] {
    } else {
      NoBreaks(t[1..]);
    }
  }

  lemma EncodeHasNoBreaks(bs: seq<byte>)
    ensures WithoutBreaks(Encode(bs)) == Encode(bs)
  {
    EncodeShape(bs);
    NoBreaks(Encode(bs));
  }

  lemma {:induction false} BodyWithoutBreaks(file: seq<byte>, k: nat)
    ensures WithoutBreaks(Body(file, k)) == Joined(file, k)
  {
    hide Encode, Block;
    if k == 0 {
    } else {
      BodyWithoutBreaks(file, k - 1);
      WithoutBreaksAppend(Body(file, k - 1), Line(file, k - 1) + CRLF);
      WithoutBreaksAppend(Line(file, k - 1), CRLF);
      EncodeHasNoBreaks(Block(file, k - 1));
      assert WithoutBreaks(CRLF) == [] by {
        assert CRLF[1..] == [10] && CRLF[1..][1..] == [];
      }
      assert Line(file, k - 1) + [] == Line(file, k - 1);
    }
  }

  /** A reader that skips the line breaks and decodes gets the file, whatever its length. */
  lemma AttachmentRoundTrip(file: seq<byte>)
    ensures Decode(WithoutBreaks(Body(file, LineCount(file)))) == file
  {
    BodyWithoutBreaks(file, LineCount(file));
    ChunkingIsTransparent(file);
    DecodeEncode(file);
  }

  lemma {:induction false} BodyStart(file: seq<byte>, k: nat) returns (rest: seq<byte>)
    requires k > 0
    ensures Body(file, k) == Line(file, 0) + ([CRLF[0]] + rest)
  {
    hide Encode, Block;
    var line := Line(file, k - 1);
    if k == 1 {
      rest := [CRLF[1]];
      assert Body(file, 1) == [] + (line + CRLF);
      assert CRLF == [CRLF[0]] + rest;
    } else {
      var rest' := BodyStart(file, k - 1);
      rest := rest' + (line + CRLF);
      assert Line(file, 0) + ([CRLF[0]] + rest') + (line + CRLF) == Line(file, 0) + ([CRLF[0]] + rest);
    }
  }

  /** A decoder that does not skip line breaks returns the first 54 bytes and no more. */
  lemma FirstLineOnly(file: seq<byte>)
    ensures Decode(Body(file, LineCount(file))) == Block(file, 0)
  {
    hide Encode, Decode, Block;
    var rest := BodyStart(file, LineCount(file));
    DecodeStops(Block(file, 0), CRLF[0], rest);
  }

  /** So it recovers exactly the files that fit in one line. */
  lemma FirstLineSuffices(file: seq<byte>)
    ensures Decode(Body(file, LineCount(file))) == file <==> |file| <= 54
  {
    hide Decode, Body;
    FirstLineOnly(file);
    assert |file| > 54 ==> |Block(file, 0)| == 54;
  }

  // ----- the text that is appended

  lemma SliceShift(first: seq<byte>, rest: seq<byte>, p: nat, q: nat)
    requires p <= q <= |rest|
    ensures (first + rest)[|first| + p..|first| + q] == rest[p..q]
  {
  }

  lemma BlockIs(file: seq<byte>, k: nat, p: nat)
    requires p == 54 * k
    ensures Block(file, k) == if |file| <= p then [] else file[p..if |file| <= p + 54 then |file| else p + 54]
  {
  }

  lemma BlockShift(first: seq<byte>, rest: seq<byte>, k: nat)
    requires |first| == 54
    ensures Block(first + rest, 0) == first && Block(first + rest, k + 1) == Block(rest, k)
  {
    hide Block;
    var p := 54 * k;
    BlockIs(first + rest, 0, 0);
    BlockIs(rest, k, p);
    BlockIs(first + rest, k + 1, p + 54);
    if |rest| > p {
      SliceShift(first, rest, p, if |rest| <= p + 54 then |rest| else p + 54);
    }
  }

  lemma BodyStep(file: seq<byte>, k: nat)
    ensures Body(file, 0) == [] && Body(file, k + 1) == Body(file, k) + (Line(file, k) + CRLF)
  {
    hide Line;
  }

  lemma {:induction false} BodyCons(first: seq<byte>, rest: seq<byte>, k: nat)
    requires |first| == 54
    ensures Body(first + rest, k + 1) == Encode(first) + CRLF + Body(rest, k)
  {
    hide Encode, Body, Block;
    BodyStep(first + rest, k);
    BodyStep(rest, 0);
    if k == 0 {
      BlockShift(first, rest, 0);
      assert [] + (Encode(first) + CRLF) == Encode(first) + CRLF + [];
    } else {
      BodyCons(first, rest, k - 1);
      BodyStep(rest, k - 1);
      BlockShift(first, rest, k - 1);
      Associative(Encode(first) + CRLF, Body(rest, k - 1), Line(rest, k - 1) + CRLF);
    }
  }

  /** The first 54 bytes of a longer file make the first line; the rest follows as a file of its own. */
  lemma BodyOfLong(first: seq<byte>, rest: seq<byte>)
    requires |first| == 54
    ensures Body(first + rest, LineCount(first + rest))
         == Encode(first) + ['\r' as int, '\n' as int] + Body(rest, LineCount(rest))
  {
    hide Body, Encode;
    BodyCons(first, rest, LineCount(rest));
  }

  /** A shorter one, even an empty one, is one line. */
  lemma BodyOfShort(file: seq<byte>)
    requires |file| < 54
    ensures Body(file, LineCount(file)) == Encode(file) + ['\r' as int, '\n' as int]
  {
    hide Encode;
    assert Block(file, 0) == file;
    assert Body(file, 1) == Body(file, 0) + (Line(file, 0) + CRLF);
  }
}
