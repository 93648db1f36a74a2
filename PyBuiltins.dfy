/**
 * The parts of Python's built-in `str`, `int` and `bytes` behaviour that the
 * Nikobus code relies on, stated once so that the other modules can use them:
 * prefix and substring tests, clamped slicing, `str.strip`, `str.count`,
 * `str.find`, hexadecimal formatting (`'{:X}'`) and `int(s, 16)`.
 */
module PyBuiltins {

  /** An element of a Python `bytes` / `bytearray`. */
  type Byte = x: int | 0 <= x < 256

  datatype Option<T> = None | Some(value: T)

  // ---------------------------------------------------------------------------
  // Prefixes, substrings, slicing
  // ---------------------------------------------------------------------------

  /** `s.startswith(p)` */
  predicate StartsWith(s: string, p: string) {
    |p| <= |s| && s[..|p|] == p
  }

  /** `sub in s` */
  predicate Contains(s: string, sub: string)
    decreases |s|
  {
    if StartsWith(s, sub) then true
    else if |s| == 0 then false
    else Contains(s[1..], sub)
  }

  /** `sub` occurs in `s` starting at index `i`. */
  predicate OccursAt(s: string, sub: string, i: int) {
    0 <= i <= |s| - |sub| && s[i..i + |sub|] == sub
  }

  /** `sub in s` holds exactly when `sub` occurs at some position of `s`. */
  lemma {:induction false} ContainsAt(s: string, sub: string)
    ensures Contains(s, sub) <==> exists i :: OccursAt(s, sub, i)
    decreases |s|
  {
    if StartsWith(s, sub) {
      assert OccursAt(s, sub, 0);
    } else if |s| > 0 {
      var t := s[1..];
      ContainsAt(t, sub);
      if exists i :: OccursAt(s, sub, i) {
        var i :| OccursAt(s, sub, i);
        assert i != 0 by { assert s[..|sub|] == s[0..0 + |sub|]; }
        assert t[i - 1..i - 1 + |sub|] == s[i..i + |sub|];
        assert OccursAt(t, sub, i - 1);
      }
      if exists j :: OccursAt(t, sub, j) {
        var j :| OccursAt(t, sub, j);
        assert s[j + 1..j + 1 + |sub|] == t[j..j + |sub|];
        assert OccursAt(s, sub, j + 1);
      }
    }
  }

  /** `s[i:j]` for non-negative bounds: both are clamped to the length. */
  function Slice(s: string, i: nat, j: nat): (r: string)
    ensures |r| <= |s|
  {
    var a := if i < |s| then i else |s|;
    var b := if j < |s| then j else |s|;
    if a <= b then s[a..b] else []
  }

  /** `s[i:]` */
  function SliceFrom(s: string, i: nat): string {
    if i < |s| then s[i..] else []
  }

  /** `s[:j]` */
  function SliceTo(s: string, j: nat): string {
    if j < |s| then s[..j] else s
  }

  /** `s[:-n]` for n >= 1 */
  function DropLast(s: string, n: nat): string
    requires n >= 1
  {
    if n <= |s| then s[..|s| - n] else []
  }

  /** `s[-n:]` for n >= 1 */
  function TakeLast(s: string, n: nat): string
    requires n >= 1
  {
    if n <= |s| then s[|s| - n..] else s
  }

  /** `s.count(c)` for a one-character needle. */
  function CountChar(s: string, c: char): nat {
    if |s| == 0 then 0 else (if s[0] == c then 1 else 0) + CountChar(s[1..], c)
  }

  /** `s.find(c, start)`: the first index at or after `start` holding `c`, or -1. */
  function FindFrom(s: string, c: char, start: nat): (r: int)
    ensures r == -1 || (start <= r < |s| && s[r] == c)
    ensures r == -1 ==> forall k :: start <= k < |s| ==> s[k] != c
    ensures r != -1 ==> forall k :: start <= k < r ==> s[k] != c
    decreases |s| - start
  {
    if start >= |s| then -1
    else if s[start] == c then start
    else FindFrom(s, c, start + 1)
  }

  lemma {:induction false} CountPositive(s: string, c: char, k: nat)
    requires k < |s| && s[k] == c
    ensures CountChar(s, c) >= 1
  {
    if k > 0 {
      CountPositive(s[1..], c, k - 1);
    }
  }

  lemma {:induction false} CountZero(s: string, c: char)
    requires forall k :: 0 <= k < |s| ==> s[k] != c
    ensures CountChar(s, c) == 0
  {
    if |s| > 0 {
      CountZero(s[1..], c);
    }
  }

  /** More than one occurrence of `c` means there is one after index 0. */
  lemma SecondOccurrence(s: string, c: char)
    requires CountChar(s, c) > 1
    ensures FindFrom(s, c, 1) >= 1
  {
    if FindFrom(s, c, 1) == -1 {
      CountZero(s[1..], c);
    }
  }

  // ---------------------------------------------------------------------------
  // str.replace and str.split for one-character needles
  // ---------------------------------------------------------------------------

  /** `s.replace(c, "")` */
  function RemoveChar(s: string, c: char): (r: string)
    ensures |r| <= |s|
    ensures forall k :: 0 <= k < |r| ==> r[k] != c
  {
    if |s| == 0 then []
    else (if s[0] == c then [] else [s[0]]) + RemoveChar(s[1..], c)
  }

  /** Removing a character brings in no other. */
  lemma {:induction false} RemoveCharKeepsAbsent(s: string, c: char, d: char)
    requires forall k :: 0 <= k < |s| ==> s[k] != d
    ensures forall k :: 0 <= k < |RemoveChar(s, c)| ==> RemoveChar(s, c)[k] != d
  {
    if |s| > 0 {
      RemoveCharKeepsAbsent(s[1..], c, d);
    }
  }

  /** `s.replace(c, d)` */
  function ReplaceChar(s: string, c: char, d: char): (r: string)
    ensures |r| == |s|
    ensures forall k :: 0 <= k < |s| ==> r[k] == if s[k] == c then d else s[k]
  {
    if |s| == 0 then [] else [if s[0] == c then d else s[0]] + ReplaceChar(s[1..], c, d)
  }

  lemma {:induction false} RemoveCharConcat(a: string, b: string, c: char)
    ensures RemoveChar(a + b, c) == RemoveChar(a, c) + RemoveChar(b, c)
  {
    if |a| == 0 {
      assert a + b == b;
    } else {
      assert (a + b)[0] == a[0] && (a + b)[1..] == a[1..] + b;
      RemoveCharConcat(a[1..], b, c);
      var h := if a[0] == c then [] else [a[0]];
      assert RemoveChar(a + b, c) == h + RemoveChar(a[1..] + b, c);
      assert RemoveChar(a, c) == h + RemoveChar(a[1..], c);
    }
  }

  lemma ReplaceCharConcat(a: string, b: string, c: char, d: char)
    ensures ReplaceChar(a + b, c, d) == ReplaceChar(a, c, d) + ReplaceChar(b, c, d)
  {
    var r, ra, rb := ReplaceChar(a + b, c, d), ReplaceChar(a, c, d), ReplaceChar(b, c, d);
    forall k | 0 <= k < |r|
      ensures r[k] == (ra + rb)[k]
    {
      if k < |a| {
        assert (a + b)[k] == a[k];
      } else {
        assert (a + b)[k] == b[k - |a|];
      }
    }
    assert r == ra + rb;
  }

  /** `s.split(sep)`: the pieces between the separators, so always one more than there are separators. */
  function Split(s: string, sep: char): (parts: seq<string>)
    ensures |parts| == CountChar(s, sep) + 1
  {
    if |s| == 0 then [""]
    else
      var rest := Split(s[1..], sep);
      if s[0] == sep then [""] + rest
      else [[s[0]] + rest[0]] + rest[1..]
  }

  /** No piece holds the separator, and every character of a piece comes from the string. */
  lemma {:induction false} SplitPieces(s: string, sep: char)
    ensures forall i, k :: 0 <= i < |Split(s, sep)| && 0 <= k < |Split(s, sep)[i]| ==>
      Split(s, sep)[i][k] != sep && Split(s, sep)[i][k] in s
  {
    if |s| > 0 {
      SplitPieces(s[1..], sep);
      var rest := Split(s[1..], sep);
      forall i, k | 0 <= i < |rest| && 0 <= k < |rest[i]|
        ensures rest[i][k] in s
      {
        assert rest[i][k] in s[1..];
        var j :| 0 <= j < |s[1..]| && s[1..][j] == rest[i][k];
        assert s[j + 1] == rest[i][k];
      }
    }
  }

  /** `sep.join(parts)` */
  function Join(parts: seq<string>, sep: char): string
    requires |parts| >= 1
  {
    if |parts| == 1 then parts[0] else parts[0] + [sep] + Join(parts[1..], sep)
  }

  /** Joining the pieces with the separator gives back the string. */
  lemma {:induction false} JoinSplit(s: string, sep: char)
    ensures Join(Split(s, sep), sep) == s
  {
    if |s| > 0 {
      var rest := Split(s[1..], sep);
      JoinSplit(s[1..], sep);
      if s[0] == sep {
        assert ([""] + rest)[1..] == rest;
      } else {
        var parts := [[s[0]] + rest[0]] + rest[1..];
        if |rest| > 1 {
          assert parts[1..] == rest[1..];
          assert rest[1..] == rest[1..];
        }
      }
    }
  }

  /** Without the separator, `split` gives the whole string back as its only piece. */
  lemma SplitWithout(s: string, sep: char)
    requires forall k :: 0 <= k < |s| ==> s[k] != sep
    ensures Split(s, sep) == [s]
  {
    CountZero(s, sep);
    JoinSplit(s, sep);
  }

  /**
   * Splitting `a + b`: the pieces of `a` before its last one, then the
   * pieces of that last piece followed by `b`.
   */
  lemma {:induction false} SplitAppend(a: string, b: string, sep: char)
    ensures var pa := Split(a, sep);
      Split(a + b, sep) == pa[..|pa| - 1] + Split(pa[|pa| - 1] + b, sep)
  {
    if |a| == 0 {
      assert a + b == b;
    } else {
      assert (a + b)[0] == a[0] && (a + b)[1..] == a[1..] + b;
      SplitAppend(a[1..], b, sep);
      if a[0] == sep {
        SplitAppendSep(a, b, sep);
      } else {
        SplitAppendOther(a, b, sep);
      }
    }
  }

  lemma SplitAppendSep(a: string, b: string, sep: char)
    requires |a| > 0 && a[0] == sep && (a + b)[1..] == a[1..] + b
    requires var ra := Split(a[1..], sep);
      Split(a[1..] + b, sep) == ra[..|ra| - 1] + Split(ra[|ra| - 1] + b, sep)
    ensures var pa := Split(a, sep);
      Split(a + b, sep) == pa[..|pa| - 1] + Split(pa[|pa| - 1] + b, sep)
  {
    var ra := Split(a[1..], sep);
    var pa := Split(a, sep);
    assert pa == [""] + ra;
    assert pa[..|pa| - 1] == [""] + ra[..|ra| - 1];
  }

  lemma SplitAppendOther(a: string, b: string, sep: char)
    requires |a| > 0 && a[0] != sep && (a + b)[0] == a[0] && (a + b)[1..] == a[1..] + b
    requires var ra := Split(a[1..], sep);
      Split(a[1..] + b, sep) == ra[..|ra| - 1] + Split(ra[|ra| - 1] + b, sep)
    ensures var pa := Split(a, sep);
      Split(a + b, sep) == pa[..|pa| - 1] + Split(pa[|pa| - 1] + b, sep)
  {
    var ra := Split(a[1..], sep);
    var last := ra[|ra| - 1];
    var tail := Split(last + b, sep);
    SplitCons(a, sep);
    SplitCons(a + b, sep);
    if |ra| > 1 {
      ConsMany(a[0], ra, tail);
    } else {
      var t := [a[0]] + last + b;
      assert t[1..] == last + b;
      SplitCons(t, sep);
      assert [a[0]] + last == Split(a, sep)[0];
    }
  }

  /** One step of `Split` over a leading character that is not the separator. */
  lemma SplitCons(s: string, sep: char)
    requires |s| > 0 && s[0] != sep
    ensures var rest := Split(s[1..], sep);
      Split(s, sep) == [[s[0]] + rest[0]] + rest[1..]
  {
  }

  /** The list algebra behind SplitAppendOther when the tail has several pieces. */
  lemma ConsMany(c: char, ra: seq<string>, tail: seq<string>)
    requires |ra| > 1 && |tail| > 0
    ensures var pa := [[c] + ra[0]] + ra[1..];
      var rab := ra[..|ra| - 1] + tail;
      [[c] + rab[0]] + rab[1..] == pa[..|pa| - 1] + tail && pa[|pa| - 1] == ra[|ra| - 1]
  {
    var rab := ra[..|ra| - 1] + tail;
    assert rab[0] == ra[0] && rab[1..] == ra[1..|ra| - 1] + tail;
  }

  /** The concatenation of a list of strings: `"".join(parts)`. */
  function Flatten(parts: seq<string>): string {
    if |parts| == 0 then [] else parts[0] + Flatten(parts[1..])
  }

  lemma {:induction false} FlattenAppend(p: seq<string>, q: seq<string>)
    ensures Flatten(p + q) == Flatten(p) + Flatten(q)
  {
    if |p| == 0 {
      assert p + q == q;
    } else {
      assert (p + q)[0] == p[0] && (p + q)[1..] == p[1..] + q;
      FlattenAppend(p[1..], q);
      assert Flatten(p + q) == p[0] + Flatten(p[1..] + q);
    }
  }

  /** `[y for x in xs for y in f(x)]` */
  function FlatMap<T, U>(f: T -> seq<U>, xs: seq<T>): seq<U> {
    if |xs| == 0 then [] else FlatMap(f, xs[..|xs| - 1]) + f(xs[|xs| - 1])
  }

  lemma FlatMapSnoc<T, U>(f: T -> seq<U>, xs: seq<T>, x: T)
    ensures FlatMap(f, xs + [x]) == FlatMap(f, xs) + f(x)
  {
    assert (xs + [x])[..|xs|] == xs;
  }

  lemma {:induction false} FlatMapAppend<T, U>(f: T -> seq<U>, p: seq<T>, q: seq<T>)
    ensures FlatMap(f, p + q) == FlatMap(f, p) + FlatMap(f, q)
    decreases |q|
  {
    if |q| == 0 {
      assert p + q == p;
    } else {
      var q', last := q[..|q| - 1], q[|q| - 1];
      assert p + q == (p + q') + [last] && q == q' + [last];
      FlatMapSnoc(f, p + q', last);
      FlatMapSnoc(f, q', last);
      FlatMapAppend(f, p, q');
    }
  }

  // ---------------------------------------------------------------------------
  // Whitespace and str.strip()
  // ---------------------------------------------------------------------------

  /** `c.isspace()`: exactly the characters Python 3 treats as whitespace. */
  predicate IsSpace(c: char) {
    var n := c as int;
    (9 <= n <= 13) || (0x1C <= n <= 0x20) || n == 0x85 || n == 0xA0 || n == 0x1680
    || (0x2000 <= n <= 0x200A) || n == 0x2028 || n == 0x2029 || n == 0x202F
    || n == 0x205F || n == 0x3000
  }

  function StripLeft(s: string): (r: string)
    ensures |r| <= |s| && r == s[|s| - |r|..]
    ensures |r| > 0 ==> !IsSpace(r[0])
    ensures forall k :: 0 <= k < |s| - |r| ==> IsSpace(s[k])
  {
    if |s| > 0 && IsSpace(s[0]) then StripLeft(s[1..]) else s
  }

  function StripRight(s: string): (r: string)
    ensures |r| <= |s| && r == s[..|r|]
    ensures |r| > 0 ==> !IsSpace(r[|r| - 1])
    ensures forall k :: |r| <= k < |s| ==> IsSpace(s[k])
  {
    if |s| > 0 && IsSpace(s[|s| - 1]) then StripRight(s[..|s| - 1]) else s
  }

  /** `s.strip()` */
  function Strip(s: string): string {
    StripRight(StripLeft(s))
  }

  lemma StripNoSpaceEnds(s: string)
    requires |s| > 0 ==> !IsSpace(s[0]) && !IsSpace(s[|s| - 1])
    ensures Strip(s) == s
  {
  }

  // ---------------------------------------------------------------------------
  // Hexadecimal digits
  // ---------------------------------------------------------------------------

  predicate IsHexDigit(c: char) {
    ('0' <= c <= '9') || ('A' <= c <= 'F') || ('a' <= c <= 'f')
  }

  predicate IsUpperHexDigit(c: char) {
    ('0' <= c <= '9') || ('A' <= c <= 'F')
  }

  predicate IsHexString(s: string) {
    forall k :: 0 <= k < |s| ==> IsHexDigit(s[k])
  }

  predicate IsUpperHexString(s: string) {
    forall k :: 0 <= k < |s| ==> IsUpperHexDigit(s[k])
  }

  function HexValue(c: char): (d: nat)
    requires IsHexDigit(c)
    ensures d < 16
  {
    if '0' <= c <= '9' then c as int - '0' as int
    else if 'A' <= c <= 'F' then c as int - 'A' as int + 10
    else c as int - 'a' as int + 10
  }

  /** The upper-case digit for `d`. */
  function HexChar(d: nat): (c: char)
    requires d < 16
    ensures IsUpperHexDigit(c) && HexValue(c) == d
  {
    if d < 10 then ('0' as int + d) as char else ('A' as int + d - 10) as char
  }

  /** A hexadecimal digit is determined by its value up to letter case. */
  lemma HexValueInjective(c: char, e: char)
    requires IsHexDigit(c) && IsHexDigit(e) && HexValue(c) == HexValue(e)
    ensures AsciiUpper(c) == AsciiUpper(e)
  {
  }

  lemma UpperHexValueInjective(c: char, e: char)
    requires IsUpperHexDigit(c) && IsUpperHexDigit(e) && HexValue(c) == HexValue(e)
    ensures c == e
  {
  }

  function Pow16(n: nat): (p: nat)
    ensures p >= 1
  {
    if n == 0 then 1 else 16 * Pow16(n - 1)
  }

  /** The value of a string of hexadecimal digits, most significant first. */
  function ParseHex(s: string): (v: nat)
    requires IsHexString(s)
    ensures v < Pow16(|s|)
  {
    if |s| == 0 then 0 else ParseHex(s[..|s| - 1]) * 16 + HexValue(s[|s| - 1])
  }

  /** `'{:X}'.format(v)`: the shortest upper-case hexadecimal numeral of `v`. */
  function FormatHex(v: nat): (s: string)
    ensures |s| >= 1 && IsUpperHexString(s)
  {
    if v < 16 then [HexChar(v)] else FormatHex(v / 16) + [HexChar(v % 16)]
  }

  lemma {:induction false} FormatHexParses(v: nat)
    ensures ParseHex(FormatHex(v)) == v
  {
    if v >= 16 {
      FormatHexParses(v / 16);
      var s := FormatHex(v);
      assert s[..|s| - 1] == FormatHex(v / 16);
    }
  }

  /** `FormatHex(v)` fits in `n` digits exactly when `v < 16^n`. */
  lemma {:induction false} FormatHexLength(v: nat, n: nat)
    requires n >= 1
    ensures |FormatHex(v)| <= n <==> v < Pow16(n)
  {
    if v >= 16 {
      if n == 1 {
        assert Pow16(1) == 16;
      } else {
        FormatHexLength(v / 16, n - 1);
      }
    } else {
      PowAtLeast16(n);
    }
  }

  lemma {:induction false} PowAtLeast16(n: nat)
    requires n >= 1
    ensures Pow16(n) >= 16
  {
    if n > 1 {
      PowAtLeast16(n - 1);
    }
  }

  function Zeros(n: nat): (s: string)
    ensures |s| == n && forall k :: 0 <= k < n ==> s[k] == '0'
  {
    if n == 0 then [] else Zeros(n - 1) + ['0']
  }

  /** Leading zeros do not change the value of a numeral. */
  lemma {:induction false} ParseHexLeadingZeros(n: nat, s: string)
    requires IsHexString(s)
    ensures IsHexString(Zeros(n) + s) && ParseHex(Zeros(n) + s) == ParseHex(s)
  {
    var z := Zeros(n) + s;
    if |s| == 0 {
      assert z == Zeros(n);
      ZerosParse(n);
    } else {
      ParseHexLeadingZeros(n, s[..|s| - 1]);
      assert z[..|z| - 1] == Zeros(n) + s[..|s| - 1];
    }
  }

  lemma {:induction false} ZerosParse(n: nat)
    ensures IsHexString(Zeros(n)) && ParseHex(Zeros(n)) == 0
  {
    if n > 0 {
      ZerosParse(n - 1);
      var z := Zeros(n - 1) + ['0'];
      assert z[..n - 1] == Zeros(n - 1);
      assert HexValue(z[n - 1]) == 0;
    }
  }

  /** Appending a digit multiplies the value by 16 and adds the digit. */
  lemma ParseHexSnoc(s: string, c: char)
    requires IsHexString(s) && IsHexDigit(c)
    ensures IsHexString(s + [c]) && ParseHex(s + [c]) == ParseHex(s) * 16 + HexValue(c)
  {
    assert (s + [c])[..|s|] == s;
  }

  // ---------------------------------------------------------------------------
  // Case folding and int(s, 16)
  // ---------------------------------------------------------------------------

  /** `str.upper()` restricted to one character; see AsciiUpperString. */
  function AsciiUpper(c: char): char {
    if 'a' <= c <= 'z' then (c as int - 32) as char else c
  }

  /** `s.upper()` as far as comparisons with upper-case hexadecimal digits go. */
  function AsciiUpperString(s: string): (r: string)
    ensures |r| == |s| && forall k :: 0 <= k < |s| ==> r[k] == AsciiUpper(s[k])
  {
    if |s| == 0 then [] else [AsciiUpper(s[0])] + AsciiUpperString(s[1..])
  }

  /** Digits separated by single underscores, as `int()` accepts them. */
  predicate IsDigitGroups(b: string) {
    && |b| > 0
    && b[0] != '_' && b[|b| - 1] != '_'
    && (forall k :: 0 <= k < |b| ==> IsHexDigit(b[k]) || b[k] == '_')
    && (forall k :: 0 <= k < |b| - 1 ==> !(b[k] == '_' && b[k + 1] == '_'))
  }

  function RemoveUnderscores(b: string): (r: string)
    requires forall k :: 0 <= k < |b| ==> IsHexDigit(b[k]) || b[k] == '_'
    ensures IsHexString(r)
  {
    if |b| == 0 then []
    else if b[0] == '_' then RemoveUnderscores(b[1..])
    else [b[0]] + RemoveUnderscores(b[1..])
  }

  lemma {:induction false} RemoveUnderscoresOfHex(b: string)
    requires IsHexString(b)
    ensures RemoveUnderscores(b) == b
  {
    if |b| > 0 {
      RemoveUnderscoresOfHex(b[1..]);
    }
  }

  /** `int(s, 16)`: None where Python raises ValueError. */
  function IntBase16(s: string): Option<int> {
    var t := Strip(s);
    var negative := |t| > 0 && t[0] == '-';
    var unsigned := if |t| > 0 && (t[0] == '+' || t[0] == '-') then t[1..] else t;
    var body :=
      if |unsigned| >= 2 && unsigned[0] == '0' && (unsigned[1] == 'x' || unsigned[1] == 'X') then
        (if |unsigned| > 2 && unsigned[2] == '_' then unsigned[3..] else unsigned[2..])
      else unsigned;
    if IsDigitGroups(body) then
      var v: int := ParseHex(RemoveUnderscores(body));
      Some(if negative then -v else v)
    else None
  }

  /** Two hexadecimal digits, as the Nikobus length field is written, parse to their value. */
  lemma IntBase16OfTwoDigits(s: string)
    requires |s| == 2 && IsHexString(s)
    ensures IntBase16(s) == Some(ParseHex(s))
  {
    StripNoSpaceEnds(s);
    RemoveUnderscoresOfHex(s);
    if s[0] == '0' && (s[1] == 'x' || s[1] == 'X') {
      assert false;
    }
  }
}
