/**
 * The event listener of nikobusconnect/listener.py: the framer that turns
 * the decoded serial stream into frames (keeping an unfinished line in
 * `_frame_buffer`), the length-and-CRC-8 check of a PC-Link frame, and the
 * decision of which sinks a frame is handed to.
 */
module Listener {
  import opened PyBuiltins
  import opened Protocol
  import opened Transport

  /** The start-of-text and end-of-text bytes some PC-Links wrap frames in. */
  const STX: char := '\U{0002}'
  const ETX: char := '\U{0003}'

  // ---------------------------------------------------------------------------
  // _extract_frames: the specification
  // ---------------------------------------------------------------------------

  /** `raw.replace("\x02", "").replace("\x03", "").replace("\n", "\r")` */
  function Normalize(raw: string): (r: string)
    ensures Normalized(r) && |r| <= |raw|
  {
    var noStx := RemoveChar(raw, STX);
    var noEtx := RemoveChar(noStx, ETX);
    RemoveCharKeepsAbsent(noStx, ETX, STX);
    ReplaceChar(noEtx, '\n', '\r')
  }

  /** Text after normalisation: no line feeds and no STX or ETX bytes. */
  predicate Normalized(s: string) {
    forall k :: 0 <= k < |s| ==> s[k] != '\n' && s[k] != STX && s[k] != ETX
  }

  /** Normalized text without a carriage return either. */
  predicate NoControl(s: string) {
    Normalized(s) && forall k :: 0 <= k < |s| ==> s[k] != '\r'
  }

  lemma NormalizeConcat(a: string, b: string)
    ensures Normalize(a + b) == Normalize(a) + Normalize(b)
  {
    RemoveCharConcat(a, b, STX);
    RemoveCharConcat(RemoveChar(a, STX), RemoveChar(b, STX), ETX);
    ReplaceCharConcat(RemoveChar(RemoveChar(a, STX), ETX), RemoveChar(RemoveChar(b, STX), ETX), '\n', '\r');
  }

  /** The lines `split("\r")` finishes: every piece but the last. */
  function CompleteLines(s: string): seq<string> {
    var parts := Split(s, '\r');
    parts[..|parts| - 1]
  }

  /** What `parts.pop()` puts back in the buffer: the text after the last "\r". */
  function Remainder(s: string): string {
    var parts := Split(s, '\r');
    parts[|parts| - 1]
  }

  /** `re.split(r'(?=\$)', p)`: `p` cut in front of every "$". */
  function SplitBeforeDollar(p: string): (pieces: seq<string>)
    ensures |pieces| >= 1
  {
    if |p| == 0 then [""]
    else
      var rest := SplitBeforeDollar(p[1..]);
      if p[0] == '$' then [""] + [['$'] + rest[0]] + rest[1..]
      else [[p[0]] + rest[0]] + rest[1..]
  }

  /**
   * The pieces put back together give `p`; the first holds no "$", every
   * other one starts with "$" and holds no other.
   */
  lemma SplitBeforeDollarShape(p: string)
    ensures var pieces := SplitBeforeDollar(p);
      && Flatten(pieces) == p
      && (forall k :: 0 <= k < |pieces[0]| ==> pieces[0][k] != '$')
      && (forall i :: 1 <= i < |pieces| ==> |pieces[i]| >= 1 && pieces[i][0] == '$' && DollarOnlyFirst(pieces[i]))
  {
    SplitBeforeDollarFlatten(p);
    SplitBeforeDollarPieces(p);
  }

  lemma {:induction false} SplitBeforeDollarFlatten(p: string)
    ensures Flatten(SplitBeforeDollar(p)) == p
  {
    if |p| > 0 {
      SplitBeforeDollarFlatten(p[1..]);
      var rest := SplitBeforeDollar(p[1..]);
      var pieces := SplitBeforeDollar(p);
      assert Flatten(rest) == rest[0] + Flatten(rest[1..]);
      if p[0] == '$' {
        var tail := [['$'] + rest[0]] + rest[1..];
        assert pieces == [""] + tail && tail[1..] == rest[1..];
        assert Flatten(tail) == ['$'] + rest[0] + Flatten(rest[1..]);
        assert Flatten(pieces) == Flatten(tail);
      } else {
        assert pieces[1..] == rest[1..];
        assert Flatten(pieces) == [p[0]] + rest[0] + Flatten(rest[1..]);
      }
    }
  }

  lemma {:induction false} SplitBeforeDollarPieces(p: string)
    ensures forall k :: 0 <= k < |SplitBeforeDollar(p)[0]| ==> SplitBeforeDollar(p)[0][k] != '$'
    ensures forall i :: 1 <= i < |SplitBeforeDollar(p)| ==> DollarPiece(SplitBeforeDollar(p)[i])
  {
    if |p| > 0 {
      SplitBeforeDollarPieces(p[1..]);
      var rest := SplitBeforeDollar(p[1..]);
      var pieces := SplitBeforeDollar(p);
      if p[0] == '$' {
        assert pieces[0] == "";
        forall i | 1 <= i < |pieces|
          ensures DollarPiece(pieces[i])
        {
          if i == 1 {
            assert pieces[1] == ['$'] + rest[0];
          } else {
            assert pieces[i] == rest[i - 1];
          }
        }
      } else {
        assert pieces[0] == [p[0]] + rest[0];
        forall i | 1 <= i < |pieces|
          ensures pieces[i] == rest[i]
        {
        }
      }
    }
  }

  /** A piece after the first: a "$" and no other. */
  predicate DollarPiece(f: string) {
    |f| >= 1 && f[0] == '$' && DollarOnlyFirst(f)
  }

  predicate DollarOnlyFirst(f: string) {
    forall k :: 1 <= k < |f| ==> f[k] != '$'
  }

  /** `[f for f in pieces if f]` */
  function NonEmpty(pieces: seq<string>): seq<string> {
    if |pieces| == 0 then []
    else if |pieces[0]| == 0 then NonEmpty(pieces[1..])
    else [pieces[0]] + NonEmpty(pieces[1..])
  }

  /** The filter keeps exactly the non-empty pieces, so their concatenation is unchanged. */
  lemma {:induction false} NonEmptyKeeps(pieces: seq<string>)
    ensures var r := NonEmpty(pieces);
      && (forall f :: f in r <==> f in pieces && |f| > 0)
      && Flatten(r) == Flatten(pieces)
  {
    if |pieces| > 0 {
      NonEmptyKeeps(pieces[1..]);
      assert pieces == [pieces[0]] + pieces[1..];
    }
  }

  /** The frames of one complete line: stripped, then cut before each "$", empty pieces dropped. */
  function LineFrames(line: string): seq<string> {
    var p := Strip(line);
    if |p| > 0 then NonEmpty(SplitBeforeDollar(p)) else []
  }

  /** The frames of several lines, in order. */
  function LinesFrames(lines: seq<string>): seq<string> {
    FlatMap(LineFrames, lines)
  }

  /** Every frame `_extract_frames` returns once `s` is in the buffer. */
  function Frames(s: string): seq<string> {
    LinesFrames(CompleteLines(s))
  }

  /** A frame as the framer delivers it: non-empty, no `\r`, `\n`, STX or ETX, "$" at most at its start. */
  predicate WellFormedFrame(f: string) {
    |f| > 0 && NoControl(f) && DollarOnlyFirst(f)
  }

  // ---------------------------------------------------------------------------
  // _extract_frames: properties
  // ---------------------------------------------------------------------------

  /** Without a "\r" nothing is returned and the buffer keeps all the text. */
  lemma NoLineNoFrames(s: string)
    requires forall k :: 0 <= k < |s| ==> s[k] != '\r'
    ensures Frames(s) == [] && Remainder(s) == s
  {
    SplitWithout(s, '\r');
  }

  /** After any call the buffer holds no `\r`, `\n`, STX or ETX, provided it held no `\n`, STX or ETX before. */
  lemma BufferStaysClean(buffer: string, raw: string)
    requires Normalized(buffer)
    ensures NoControl(Remainder(buffer + Normalize(raw)))
  {
    var s := buffer + Normalize(raw);
    assert Normalized(s);
    SplitPieces(s, '\r');
    var parts := Split(s, '\r');
    var r := parts[|parts| - 1];
    forall k | 0 <= k < |r|
      ensures r[k] != '\n' && r[k] != STX && r[k] != ETX
    {
      assert r[k] in s;
    }
  }

  /**
   * Feeding text in two chunks returns, in all, the frames that feeding it
   * in one call returns, and leaves the same buffer. `x` is the buffer
   * after the first chunk went in and `y` the second chunk, normalised;
   * NormalizeConcat shows that normalising `a + b` gives the
   * normalisations of `a` and `b` one after the other.
   */
  lemma ChunkingInvariant(x: string, y: string)
    ensures Frames(x) + Frames(Remainder(x) + y) == Frames(x + y)
    ensures Remainder(Remainder(x) + y) == Remainder(x + y)
  {
    LinesAppend(x, y);
    FlatMapAppend(LineFrames, CompleteLines(x), CompleteLines(Remainder(x) + y));
  }

  /** The finished lines of `x + y` are those of `x`, then those completed by `y`. */
  lemma LinesAppend(x: string, y: string)
    ensures CompleteLines(x + y) == CompleteLines(x) + CompleteLines(Remainder(x) + y)
    ensures Remainder(Remainder(x) + y) == Remainder(x + y)
  {
    SplitAppend(x, y, '\r');
    var px := Split(x, '\r');
    var pm := Split(px[|px| - 1] + y, '\r');
    assert CompleteLines(x + y) == px[..|px| - 1] + pm[..|pm| - 1];
  }

  lemma PiecesWellFormed(p: string)
    requires NoControl(p)
    ensures forall f :: f in NonEmpty(SplitBeforeDollar(p)) ==> WellFormedFrame(f)
  {
    var pieces := SplitBeforeDollar(p);
    SplitBeforeDollarShape(p);
    NonEmptyKeeps(pieces);
    forall f | f in NonEmpty(pieces)
      ensures WellFormedFrame(f)
    {
      var i :| 0 <= i < |pieces| && pieces[i] == f;
      PieceChars(pieces, i);
    }
  }

  /** Every character of a piece is a character of the whole. */
  lemma {:induction false} PieceChars(pieces: seq<string>, i: nat)
    requires i < |pieces|
    ensures forall k :: 0 <= k < |pieces[i]| ==> pieces[i][k] in Flatten(pieces)
  {
    if i > 0 {
      PieceChars(pieces[1..], i - 1);
      assert Flatten(pieces) == pieces[0] + Flatten(pieces[1..]);
    }
  }

  lemma LineFramesWellFormed(line: string)
    requires NoControl(line)
    ensures forall f :: f in LineFrames(line) ==> WellFormedFrame(f)
  {
    var p := Strip(line);
    var l := StripLeft(line);
    assert p == l[..|p|];
    assert forall k :: 0 <= k < |p| ==> p[k] == line[|line| - |l| + k];
    if |p| > 0 {
      PiecesWellFormed(p);
    }
  }

  lemma {:induction false} LinesFramesWellFormed(lines: seq<string>)
    requires forall i :: 0 <= i < |lines| ==> NoControl(lines[i])
    ensures forall f :: f in LinesFrames(lines) ==> WellFormedFrame(f)
  {
    if |lines| > 0 {
      LinesFramesWellFormed(lines[..|lines| - 1]);
      LineFramesWellFormed(lines[|lines| - 1]);
    }
  }

  /**
   * Every frame returned is non-empty, holds no "\r", "\n", STX or ETX, and
   * has a "$" at most at index 0.
   */
  lemma FramesWellFormed(s: string)
    requires Normalized(s)
    ensures forall f :: f in Frames(s) ==> WellFormedFrame(f)
  {
    SplitPieces(s, '\r');
    var lines := CompleteLines(s);
    forall i | 0 <= i < |lines|
      ensures NoControl(lines[i])
    {
      forall k | 0 <= k < |lines[i]|
        ensures lines[i][k] != '\n' && lines[i][k] != STX && lines[i][k] != ETX
      {
        assert lines[i][k] in s;
      }
    }
    LinesFramesWellFormed(lines);
  }

  // ---------------------------------------------------------------------------
  // validate_crc
  // ---------------------------------------------------------------------------

  /**
   * `validate_crc`: a message holding several "$" is judged by the part from
   * its second "$" on; a five-character "$05" acknowledgement is always
   * valid; otherwise the hexadecimal length field (characters 1 and 2) must
   * be the message length plus one and the last two characters must spell
   * the CRC-8 of everything before them, in either case. Anything the
   * source would raise on is invalid.
   */
  function ValidateCrc(message: string): bool
    decreases |message|
  {
    if CountChar(message, '$') > 1 then
      SecondOccurrence(message, '$');
      ValidateCrc(message[FindFrom(message, '$', 1)..])
    else if |message| == 5 && StartsWith(message, "$05") then true
    else
      match IntBase16(Slice(message, 1, 3))
      case None => false
      case Some(expectedTotal) =>
        if |message| != expectedTotal - 1 then false
        else AsciiUpperString(IntToHex(Crc8(DropLast(message, 2)) as int, 2)) == AsciiUpperString(TakeLast(message, 2))
  }

  /** The handshake frame of the connection sequence passes validate_crc. */
  lemma HandshakeFrameValid(m: string)
    requires m == "$10110000B8CF9D"
    ensures ValidateCrc(m)
  {
    HandshakeFrameFields(m);
    SingleFrameValidity(m);
  }

  lemma HandshakeFrameFields(m: string)
    requires m == "$10110000B8CF9D"
    ensures |m| >= 5 && m[0] == '$' && IsUpperHexString(m[1..]) && !StartsWith(m, "$05")
    ensures ParseHex(m[1..3]) == |m| + 1 && ParseHex(m[|m| - 2..]) == Crc8(m[..|m| - 2]) as int
  {
    assert m[..3] == "$10";
    assert m[1..3] == "10";
    ParseHexOfTwo("10");
    assert m[|m| - 2..] == "9D";
    ParseHexOfTwo("9D");
    assert m[..|m| - 2] == "$10110000B8CF";
    Crc8HandshakeVector();
  }

  /** A message whose characters after index 0 are all hexadecimal digits holds one "$" at most. */
  lemma OneDollar(m: string)
    requires |m| >= 1 && IsHexString(m[1..])
    ensures CountChar(m, '$') <= 1
  {
    assert forall k :: 0 <= k < |m[1..]| ==> m[1..][k] != '$';
    CountZero(m[1..], '$');
  }

  /** Every frame the (corrected) builder makes passes validate_crc. */
  lemma BuiltCommandValid(func: nat, addr: string, args: seq<Byte>)
    requires IsAddress(addr) && func < 256 && |args| <= 119
    ensures ValidateCrc(MakePcLinkCommand(func, addr, args))
  {
    var r := MakePcLinkCommand(func, addr, args);
    CommandDecodes(func, addr, args);
    CommandIsUpperHex(func, addr, args);
    SingleFrameValidity(r);
  }

  /**
   * No frame the builder as written makes passes validate_crc: its length
   * field, |args| + 6, is never the frame's length, 15 + 2 * |args|, plus one.
   */
  lemma AsWrittenNeverValid(func: nat, addr: string, args: seq<Byte>)
    requires IsAddress(addr) && func < 256 && |args| <= 119
    ensures !ValidateCrc(MakePcLinkCommandAsWritten(func, addr, args))
  {
    var w := MakePcLinkCommandAsWritten(func, addr, args);
    CommandFrameAsWritten(func, addr, args);
    BuildersShareBody(func, addr, args);
    CommandAsWrittenIsUpperHex(func, addr, args);
    OneDollar(w);
    LengthFieldOf(w);
  }

  /** A message with several "$" is judged by the part from its last "$" on. */
  lemma {:induction false} JudgedByLastFrame(message: string, j: nat)
    requires j < |message| && message[j] == '$'
    requires forall k :: j < k < |message| ==> message[k] != '$'
    ensures CountChar(message[j..], '$') == 1
    ensures CountChar(message, '$') > 1 ==> ValidateCrc(message) == ValidateCrc(message[j..])
    decreases |message|
  {
    LastDollarCount(message, j);
    if CountChar(message, '$') > 1 {
      var i := NextFrameStart(message, j);
      if i < j {
        assert ValidateCrc(message[i..]) == ValidateCrc(message[j..]) by {
          NextDollarBeforeLast(message, i, j);
          JudgedByLastFrame(message[i..], j - i);
        }
      } else {
        assert i == j;
      }
    }
  }

  /**
   * With several "$", validate_crc moves on to the next "$", which comes
   * no later than the last one.
   */
  lemma NextFrameStart(message: string, j: nat) returns (i: nat)
    requires j < |message| && message[j] == '$' && CountChar(message[j..], '$') == 1
    requires CountChar(message, '$') > 1
    ensures 1 <= i <= j && i == FindFrom(message, '$', 1)
    ensures ValidateCrc(message) == ValidateCrc(message[i..])
  {
    SecondOccurrence(message, '$');
    i := FindFrom(message, '$', 1);
    assert message[0..] == message;
  }

  /** From a "$" with none after it, the rest of the message holds exactly that one. */
  lemma LastDollarCount(message: string, j: nat)
    requires j < |message| && message[j] == '$'
    requires forall k :: j < k < |message| ==> message[k] != '$'
    ensures CountChar(message[j..], '$') == 1
  {
    var tail := message[j + 1..];
    forall k | 0 <= k < |tail|
      ensures tail[k] != '$'
    {
      assert tail[k] == message[j + 1 + k];
    }
    CountZero(tail, '$');
    assert message[j..][1..] == tail;
  }

  /** Dropping everything before an earlier "$" keeps the last "$" last and leaves two of them. */
  lemma NextDollarBeforeLast(message: string, i: nat, j: nat)
    requires i < j < |message| && message[i] == '$' && message[j] == '$'
    requires forall k :: j < k < |message| ==> message[k] != '$'
    ensures j - i < |message[i..]| && message[i..][j - i] == '$'
    ensures forall k :: j - i < k < |message[i..]| ==> message[i..][k] != '$'
    ensures message[i..][j - i..] == message[j..]
    ensures CountChar(message[i..], '$') >= 2
  {
    var rest := message[i..];
    forall k | j - i < k < |rest|
      ensures rest[k] != '$'
    {
      assert rest[k] == message[i + k];
    }
    assert rest[j - i..] == message[j..];
    CountTwo(rest, '$', j - i);
  }

  /** Two occurrences, at index 0 and at index p, count at least two. */
  lemma CountTwo(s: string, c: char, p: nat)
    requires 0 < p < |s| && s[0] == c && s[p] == c
    ensures CountChar(s, c) >= 2
  {
    CountPositive(s[1..], c, p - 1);
  }

  /**
   * For a single frame whose characters after the "$" are all hexadecimal
   * digits, in either case, validate_crc reads: the length field's value is
   * the frame length plus one, and the last two digits are the CRC-8 of
   * the rest.
   */
  lemma SingleFrameValidity(m: string)
    requires |m| >= 3 && m[0] == '$' && IsHexString(m[1..]) && !(|m| == 5 && StartsWith(m, "$05"))
    ensures ValidateCrc(m) <==>
      ParseHex(m[1..3]) == |m| + 1 && ParseHex(m[|m| - 2..]) == Crc8(m[..|m| - 2]) as int
  {
    OneDollar(m);
    LengthFieldOf(m);
    CrcFieldOf(m);
  }

  /**
   * Conversely, any single frame that passes validate_crc, whatever its
   * characters: its length field parses as its length plus one, and its
   * last two characters are hexadecimal digits, in either case, reading as
   * the CRC-8 of everything before them.
   */
  lemma ValidSingleFrame(m: string)
    requires CountChar(m, '$') <= 1 && !(|m| == 5 && StartsWith(m, "$05")) && ValidateCrc(m)
    ensures |m| >= 2 && IntBase16(Slice(m, 1, 3)) == Some(|m| + 1)
    ensures IsHexString(m[|m| - 2..]) && ParseHex(m[|m| - 2..]) == Crc8(m[..|m| - 2]) as int
  {
    SingleFrameCheck(m);
    var d, t := DropLast(m, 2), TakeLast(m, 2);
    DigitsMatching(t, Crc8(d) as int);
    assert t == m[|m| - 2..] && d == m[..|m| - 2];
  }

  /** Characters that upper-case to a one-byte value's digits are hexadecimal digits of that value. */
  lemma DigitsMatching(t: string, crc: nat)
    requires crc < 256 && AsciiUpperString(IntToHex(crc, 2)) == AsciiUpperString(t)
    ensures |t| == 2 && IsHexString(t) && ParseHex(t) == crc
  {
    var h := IntToHex(crc, 2);
    IntToHexFits(crc, 2);
    AsciiUpperOfUpperHex(h);
    assert AsciiUpper(t[0]) == h[0] && AsciiUpper(t[1]) == h[1];
    UpperOfDigit(t[0]);
    UpperOfDigit(t[1]);
    ParseHexOfTwo(t);
    ParseHexOfTwo(h);
  }

  /** For a single frame that is no acknowledgement, validate_crc reads the length field and the CRC digits. */
  lemma SingleFrameCheck(m: string)
    requires CountChar(m, '$') <= 1 && !(|m| == 5 && StartsWith(m, "$05"))
    ensures ValidateCrc(m) <==>
      && IntBase16(Slice(m, 1, 3)) == Some(|m| + 1)
      && AsciiUpperString(IntToHex(Crc8(DropLast(m, 2)) as int, 2)) == AsciiUpperString(TakeLast(m, 2))
  {
  }

  /** A five-character "$05" acknowledgement passes whatever its last two characters are. */
  lemma AcknowledgementValid(m: string)
    requires |m| == 5 && m[..3] == "$05" && m[3] != '$' && m[4] != '$'
    ensures ValidateCrc(m)
  {
    assert forall k :: 0 <= k < |m[1..]| ==> m[1..][k] != '$';
    CountZero(m[1..], '$');
    assert StartsWith(m, "$05");
  }

  /** The length field as `int(message[1:3], 16)` reads it. */
  lemma LengthFieldOf(m: string)
    requires |m| >= 3 && IsHexString(m[1..])
    ensures IsHexString(m[1..3]) && IntBase16(Slice(m, 1, 3)) == Some(ParseHex(m[1..3]))
  {
    assert m[1..3] == m[1..][0..2];
    IntBase16OfTwoDigits(m[1..3]);
    assert Slice(m, 1, 3) == m[1..3];
  }

  /** The CRC comparison of validate_crc is a comparison of values. */
  lemma CrcFieldOf(m: string)
    requires |m| >= 3 && IsHexString(m[1..])
    ensures IsHexString(m[|m| - 2..])
    ensures AsciiUpperString(IntToHex(Crc8(DropLast(m, 2)) as int, 2)) == AsciiUpperString(TakeLast(m, 2))
      <==> ParseHex(m[|m| - 2..]) == Crc8(m[..|m| - 2]) as int
  {
    var d := DropLast(m, 2);
    assert d == m[..|m| - 2] && TakeLast(m, 2) == m[|m| - 2..];
    TwoDigitField(m, Crc8(d) as int);
  }

  /** The last two digits of a frame match a one-byte value's digits, in either case, exactly when they read as that value. */
  lemma TwoDigitField(m: string, crc: nat)
    requires |m| >= 3 && IsHexString(m[1..]) && crc < 256
    ensures IsHexString(m[|m| - 2..])
    ensures AsciiUpperString(IntToHex(crc, 2)) == AsciiUpperString(m[|m| - 2..]) <==> ParseHex(m[|m| - 2..]) == crc
  {
    var t := m[|m| - 2..];
    assert t == m[1..][|m| - 3..];
    IntToHexFits(crc, 2);
    SameDigits(IntToHex(crc, 2), t);
  }

  /** An upper-case numeral and a numeral in either case agree, upper-cased, exactly when their values do. */
  lemma SameDigits(h: string, t: string)
    requires |h| == 2 && |t| == 2 && IsUpperHexString(h) && IsHexString(t)
    ensures AsciiUpperString(h) == AsciiUpperString(t) <==> ParseHex(h) == ParseHex(t)
  {
    var u := AsciiUpperString(t);
    AsciiUpperOfUpperHex(h);
    UpperOfDigit(t[0]);
    UpperOfDigit(t[1]);
    ParseHexOfTwo(t);
    ParseHexOfTwo(u);
    IntToHexOfTwoDigits(h);
    IntToHexOfTwoDigits(u);
  }

  /** A character that upper-cases to a hexadecimal digit is one, of the same value. */
  lemma UpperOfDigit(c: char)
    requires IsHexDigit(c) || IsUpperHexDigit(AsciiUpper(c))
    ensures IsHexDigit(c) && IsUpperHexDigit(AsciiUpper(c)) && HexValue(AsciiUpper(c)) == HexValue(c)
  {
  }

  lemma AsciiUpperOfUpperHex(s: string)
    requires IsUpperHexString(s)
    ensures AsciiUpperString(s) == s
  {
  }

  // ---------------------------------------------------------------------------
  // _dispatch_message
  // ---------------------------------------------------------------------------

  /** The sinks `_dispatch_message` hands a message to. */
  datatype Route = Route(queue: bool, feedback: bool, event: bool)

  /**
   * The routing decision: "$" frames go to the response queue when they are
   * "$05" acknowledgements or pass validate_crc; valid "$1004" frames go to
   * the feedback callback when there is one; every non-empty message goes
   * to the event callback.
   */
  function RouteOf(message: string, hasFeedbackCallback: bool): Route {
    if |message| == 0 then Route(false, false, false)
    else Route(
      StartsWith(message, "$") && (StartsWith(message, "$05") || ValidateCrc(message)),
      hasFeedbackCallback && StartsWith(message, "$1004") && ValidateCrc(message),
      true)
  }

  /** The handshake frame, echoed back, goes to the response queue and the event callback only. */
  lemma HandshakeFrameQueued(m: string, hasFeedbackCallback: bool)
    requires m == "$10110000B8CF9D"
    ensures RouteOf(m, hasFeedbackCallback) == Route(true, false, true)
  {
    HandshakeFrameValid(m);
    assert m[..1] == "$";
    assert m[..5] != "$1004" by { assert m[..5][4] == m[4] == '1'; }
    ValidFrameRoute(m, hasFeedbackCallback);
  }

  /** A valid "$" frame is queued and is an event; it is feedback when it is a "$1004" frame and there is a callback. */
  lemma ValidFrameRoute(m: string, hasFeedbackCallback: bool)
    requires StartsWith(m, "$") && ValidateCrc(m)
    ensures RouteOf(m, hasFeedbackCallback) == Route(true, hasFeedbackCallback && StartsWith(m, "$1004"), true)
  {
  }

  /** Anything starting "$05" is queued, whatever follows and whatever its CRC, and never taken for feedback. */
  lemma AcknowledgementQueued(message: string, hasFeedbackCallback: bool)
    requires StartsWith(message, "$05")
    ensures RouteOf(message, hasFeedbackCallback) == Route(true, false, true)
  {
    assert message[..1] == message[..3][..1] == "$";
    assert message[2] == message[..3][2] == '5';
    if |message| >= 5 {
      assert message[..5] != "$1004" by { assert message[..5][2] == message[2]; }
    }
  }

  /**
   * A "$1004" frame of hexadecimal digits passes only with the length
   * field "10", so it is 15 characters long; with a matching CRC-8 it is
   * queued and handed to the feedback callback, when there is one.
   */
  lemma FeedbackFrameRouted(message: string, hasFeedbackCallback: bool)
    requires StartsWith(message, "$1004") && IsHexString(message[1..])
    requires ParseHex(message[1..3]) == |message| + 1
    requires ParseHex(message[|message| - 2..]) == Crc8(message[..|message| - 2]) as int
    ensures |message| == 15
    ensures RouteOf(message, hasFeedbackCallback) == Route(true, hasFeedbackCallback, true)
  {
    FeedbackFrameCheck(message);
    assert message[1..3] == "10" by {
      assert message[..5][1..3] == message[1..3];
    }
    ParseHexOfTwo("10");
    ValidFrameRoute(message, hasFeedbackCallback);
  }

  /** A "$1004" frame of hexadecimal digits whose last two digits are not its CRC-8 reaches only the event callback. */
  lemma BadCrcFeedbackDropped(message: string, hasFeedbackCallback: bool)
    requires StartsWith(message, "$1004") && IsHexString(message[1..])
    requires ParseHex(message[|message| - 2..]) != Crc8(message[..|message| - 2]) as int
    ensures RouteOf(message, hasFeedbackCallback) == Route(false, false, true)
  {
    FeedbackFrameCheck(message);
  }

  /** validate_crc on a "$1004" frame of hexadecimal digits, and the prefixes it is not. */
  lemma FeedbackFrameCheck(message: string)
    requires StartsWith(message, "$1004") && IsHexString(message[1..])
    ensures !StartsWith(message, "$05") && message[..1] == "$"
    ensures ValidateCrc(message) <==>
      ParseHex(message[1..3]) == |message| + 1 && ParseHex(message[|message| - 2..]) == Crc8(message[..|message| - 2]) as int
  {
    assert message[0] == message[..5][0] == '$' && message[2] == message[..5][2] == '0';
    assert message[..1] == "$";
    assert message[..3] != "$05" by { assert message[..3][2] == message[2]; }
    SingleFrameValidity(message);
  }

  /** A frame that reaches the feedback callback also reaches the response queue and the event callback. */
  lemma FeedbackImpliesQueued(message: string, hasFeedbackCallback: bool)
    ensures var r := RouteOf(message, hasFeedbackCallback);
      r.feedback ==> r.queue && r.event && hasFeedbackCallback && StartsWith(message, "$1004")
  {
    var r := RouteOf(message, hasFeedbackCallback);
    if r.feedback {
      assert message[..1] == message[..5][..1];
    }
  }

  /** A frame from the builder as written, echoed back, would be dropped from the response queue. */
  lemma AsWrittenFrameNotQueued(func: nat, addr: string, args: seq<Byte>, hasFeedbackCallback: bool)
    requires IsAddress(addr) && func < 256 && |args| <= 119
    ensures !RouteOf(MakePcLinkCommandAsWritten(func, addr, args), hasFeedbackCallback).queue
  {
    var w := MakePcLinkCommandAsWritten(func, addr, args);
    AsWrittenNeverValid(func, addr, args);
    BuildersShareBody(func, addr, args);
    NotAcknowledgement(w);
  }

  /** A frame whose length field does not read 5 is no "$05" acknowledgement. */
  lemma NotAcknowledgement(m: string)
    requires |m| >= 3 && IsHexString(m[1..3]) && ParseHex(m[1..3]) != 5
    ensures !StartsWith(m, "$05")
  {
    ParseHexOfTwo("05");
    assert m[1..3] != "05";
    assert m[..3][1..3] == m[1..3];
  }

  // ---------------------------------------------------------------------------
  // The listener object
  // ---------------------------------------------------------------------------

  /** The loop of `_extract_frames` over the complete lines: strip each, skip the empty ones, cut the rest before every "$". */
  method FramesOfLines(parts: seq<string>) returns (extracted: seq<string>)
    ensures extracted == LinesFrames(parts)
  {
    extracted := [];
    for i := 0 to |parts|
      invariant extracted == LinesFrames(parts[..i])
    {
      var p := Strip(parts[i]);
      if |p| > 0 {
        extracted := extracted + NonEmpty(SplitBeforeDollar(p));
      }
      assert parts[..i + 1] == parts[..i] + [parts[i]];
      LinesFramesSnoc(parts[..i], parts[i]);
    }
    assert parts[..|parts|] == parts;
  }

  /** One more line adds its frames at the end. */
  lemma LinesFramesSnoc(lines: seq<string>, line: string)
    ensures LinesFrames(lines + [line]) == LinesFrames(lines) + LineFrames(line)
  {
    FlatMapSnoc(LineFrames, lines, line);
  }

  /**
   * NikobusEventListener. The callbacks are modelled by the messages they
   * are called with: `feedbackCalls` for the feedback callback (module
   * group and frame) and `events` for the event callback.
   */
  class NikobusEventListener {
    var frameBuffer: string
    const responseQueue: Fifo
    var feedbackCalls: seq<(int, string)>
    var events: seq<string>
    const hasFeedbackCallback: bool
    const moduleGroup: int

    constructor(hasFeedbackCallback: bool)
      ensures frameBuffer == "" && fresh(responseQueue) && responseQueue.items == []
      ensures feedbackCalls == [] && events == []
      ensures this.hasFeedbackCallback == hasFeedbackCallback && moduleGroup == 1
    {
      frameBuffer := "";
      responseQueue := new Fifo();
      feedbackCalls := [];
      events := [];
      this.hasFeedbackCallback := hasFeedbackCallback;
      moduleGroup := 1;
    }

    /** `_extract_frames`: buffer the normalised text and return the frames of every finished line. */
    method ExtractFrames(raw: string) returns (extracted: seq<string>)
      modifies this`frameBuffer
      ensures extracted == Frames(old(frameBuffer) + Normalize(raw))
      ensures frameBuffer == Remainder(old(frameBuffer) + Normalize(raw))
    {
      var cleaned := Normalize(raw);
      frameBuffer := frameBuffer + cleaned;
      if '\r' !in frameBuffer {
        NoLineNoFrames(frameBuffer);
        return [];
      }
      var lines := Split(frameBuffer, '\r');
      frameBuffer := lines[|lines| - 1];
      extracted := FramesOfLines(lines[..|lines| - 1]);
    }

    /** `_dispatch_message`: hand the message to the sinks RouteOf picks. */
    method DispatchMessage(message: string)
      modifies this`feedbackCalls, this`events, responseQueue
      ensures var r := RouteOf(message, hasFeedbackCallback);
        && responseQueue.items == old(responseQueue.items) + (if r.queue then [message] else [])
        && feedbackCalls == old(feedbackCalls) + (if r.feedback then [(moduleGroup, message)] else [])
        && events == old(events) + (if r.event then [message] else [])
    {
      if |message| == 0 {
        return;
      }
      if StartsWith(message, "$") {
        if StartsWith(message, "$05") || ValidateCrc(message) {
          responseQueue.Put(message);
        }
      }
      if hasFeedbackCallback && StartsWith(message, "$1004") {
        if ValidateCrc(message) {
          feedbackCalls := feedbackCalls + [(moduleGroup, message)];
        }
      }
      events := events + [message];
    }
  }
}
