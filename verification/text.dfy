/**
 * The pieces of Python's string and text-file behaviour that the score file
 * relies on: `str.strip`, `str.split` on one character, `int`, `str` of an
 * integer, and `readlines` on a file opened in text mode.
 */
module Text {
  import opened Wrappers

  /** Python's `str.isspace` for one character: the characters `strip()` discards. */
  predicate IsSpace(c: char) {
    var n := c as int;
    || 9 <= n <= 13
    || 28 <= n <= 32
    || n == 0x85 || n == 0xA0 || n == 0x1680
    || 0x2000 <= n <= 0x200A
    || n == 0x2028 || n == 0x2029 || n == 0x202F || n == 0x205F || n == 0x3000
  }

  /**
   * The whitespace `int()` discards around a number: the ASCII space and tab
   * to carriage return, and every non-ASCII `str.isspace` character (CPython
   * turns those into a space first). The separators U+001C to U+001F are
   * `str.isspace` but not among them.
   */
  predicate IntSpace(c: char) {
    var n := c as int;
    || 9 <= n <= 13
    || n == 32
    || (n >= 128 && IsSpace(c))
  }

  /** `s.lstrip()` over the whitespace class `space`: the suffix left after the longest all-space prefix. */
  function TrimStart(s: string, space: char -> bool): (r: string)
    ensures |r| <= |s| && r == s[|s| - |r|..]
    ensures forall k :: 0 <= k < |s| - |r| ==> space(s[k])
    ensures |r| > 0 ==> !space(r[0])
  {
    if |s| > 0 && space(s[0]) then
      var r := TrimStart(s[1..], space);
      assert s[1..][|s| - 1 - |r|..] == s[|s| - |r|..];
      assert forall k :: 1 <= k < |s| ==> s[1..][k - 1] == s[k];
      r
    else s
  }

  /** `s.rstrip()` over the whitespace class `space`: the prefix left after the longest all-space suffix. */
  function TrimEnd(s: string, space: char -> bool): (r: string)
    ensures |r| <= |s| && r == s[..|r|]
    ensures forall k :: |r| <= k < |s| ==> space(s[k])
    ensures |r| > 0 ==> !space(r[|r| - 1])
  {
    if |s| > 0 && space(s[|s| - 1]) then TrimEnd(s[..|s| - 1], space) else s
  }

  /** `s.strip()`. */
  function Strip(s: string): string {
    TrimStart(TrimEnd(s, IsSpace), IsSpace)
  }

  /** A string that starts and ends with a non-space character is its own strip. */
  lemma StripTight(s: string, space: char -> bool)
    requires |s| > 0 ==> !space(s[0]) && !space(s[|s| - 1])
    ensures TrimStart(TrimEnd(s, space), space) == s
  {
  }

  /** Stripping removes one trailing newline after a string that does not end in whitespace. */
  lemma StripNewline(s: string)
    requires |s| > 0 && !IsSpace(s[0]) && !IsSpace(s[|s| - 1])
    ensures Strip(s + "\n") == s
  {
    assert (s + "\n")[..|s|] == s;
  }

  /** Number of occurrences of `c` in `s`. */
  function Count(s: string, c: char): (n: nat)
    ensures n == 0 <==> c !in s
    decreases |s|
  {
    if |s| == 0 then 0 else Count(s[..|s| - 1], c) + (if s[|s| - 1] == c then 1 else 0)
  }

  lemma {:induction false} CountAppend(a: string, b: string, c: char)
    ensures Count(a + b, c) == Count(a, c) + Count(b, c)
    decreases |b|
  {
    if |b| == 0 {
      assert a + b == a;
    } else {
      CountAppend(a, b[..|b| - 1], c);
      assert (a + b)[..|a + b| - 1] == a + b[..|b| - 1];
    }
  }

  /** Position of the first `c` in `s`, or `|s|` when there is none. */
  function IndexOf(s: string, c: char): (i: nat)
    ensures i <= |s|
    ensures forall k :: 0 <= k < i ==> s[k] != c
    ensures i < |s| ==> s[i] == c
    decreases |s|
  {
    if |s| == 0 then 0
    else if s[0] == c then 0
    else 1 + IndexOf(s[1..], c)
  }

  /**
   * `a, b = s.split(sep)`: succeeds exactly when `sep` occurs once in `s`
   * (any other count makes the unpacking raise ValueError).
   */
  function SplitPair(s: string, sep: char): (r: Option<(string, string)>)
    ensures r.Some? <==> Count(s, sep) == 1
    ensures r.Some? ==> s == r.value.0 + [sep] + r.value.1
    ensures r.Some? ==> sep !in r.value.0 && sep !in r.value.1
  {
    var i := IndexOf(s, sep);
    if i == |s| then None
    else
      assert s == s[..i] + [sep] + s[i + 1..];
      CountAppend(s[..i] + [sep], s[i + 1..], sep);
      CountAppend(s[..i], [sep], sep);
      assert sep !in s[..i];
      if sep in s[i + 1..] then None else Some((s[..i], s[i + 1..]))
  }

  /** Splitting text made of two separator-free parts around one separator gives back the parts. */
  lemma SplitPairOf(a: string, b: string, sep: char)
    requires sep !in a && sep !in b
    ensures SplitPair(a + [sep] + b, sep) == Some((a, b))
  {
    var s := a + [sep] + b;
    assert s[|a|] == sep;
    assert forall k :: 0 <= k < |a| ==> s[k] == a[k] && s[k] != sep;
    assert IndexOf(s, sep) == |a|;
    assert s[..|a|] == a;
    assert s[|a| + 1..] == b;
  }

  predicate IsDigit(c: char) { '0' <= c <= '9' }

  function DigitValue(c: char): nat
    requires IsDigit(c)
  {
    c as int - '0' as int
  }

  function DigitChar(d: nat): (c: char)
    requires d < 10
    ensures IsDigit(c) && DigitValue(c) == d
  {
    ('0' as int + d) as char
  }

  predicate AllDigits(s: string) {
    forall k :: 0 <= k < |s| ==> IsDigit(s[k])
  }

  /** The number a string of decimal digits denotes. */
  function DecimalValue(s: string): nat
    requires AllDigits(s)
    decreases |s|
  {
    if |s| == 0 then 0 else DecimalValue(s[..|s| - 1]) * 10 + DigitValue(s[|s| - 1])
  }

  /**
   * The digit part `int()` accepts in base 10: ASCII digits, where single
   * underscores may separate two digits.
   */
  predicate Grouped(s: string) {
    && |s| > 0 && IsDigit(s[0]) && IsDigit(s[|s| - 1])
    && (forall k :: 0 <= k < |s| ==> IsDigit(s[k]) || s[k] == '_')
    && (forall k :: 0 <= k < |s| - 1 ==> s[k] == '_' ==> s[k + 1] != '_')
  }

  function DropUnderscores(s: string): (r: string)
    ensures (forall k :: 0 <= k < |s| ==> IsDigit(s[k]) || s[k] == '_') ==> AllDigits(r)
    ensures AllDigits(s) ==> r == s
    decreases |s|
  {
    if |s| == 0 then []
    else DropUnderscores(s[..|s| - 1]) + (if s[|s| - 1] == '_' then [] else [s[|s| - 1]])
  }

  /** `int(s)` for base 10: surrounding `int()` whitespace, an optional sign, grouped digits. */
  function ParseInt(s: string): Option<int> {
    ParseSigned(TrimStart(TrimEnd(s, IntSpace), IntSpace))
  }

  /** `int()` once the whitespace is gone: an optional sign, then grouped digits. */
  function ParseSigned(t: string): Option<int> {
    var negative := |t| > 0 && t[0] == '-';
    var body := if |t| > 0 && (t[0] == '-' || t[0] == '+') then t[1..] else t;
    if Grouped(body) then
      var n: int := DecimalValue(DropUnderscores(body));
      Some(if negative then -n else n)
    else None
  }

  /** Every character `int()` skips is one `strip()` skips too. */
  lemma IntSpaceIsSpace(c: char)
    ensures IntSpace(c) ==> IsSpace(c)
  {
  }

  /**
   * `int()` refuses text that starts with one of the separators U+001C to
   * U+001F, although `strip()` would have removed them.
   */
  lemma SeparatorRefused(s: string)
    requires |s| > 0 && 0x1C <= s[0] as int <= 0x1F
    ensures IsSpace(s[0]) && ParseInt(s) == None
  {
    var r := TrimEnd(s, IntSpace);
    if |r| > 0 {
      assert r[0] == s[0] && !IntSpace(r[0]);
      assert TrimStart(r, IntSpace) == r;
      assert !Grouped(r);
    }
  }

  /** The decimal digits of `n`, without leading zeros. */
  function FormatNat(n: nat): (r: string)
    ensures |r| > 0 && AllDigits(r)
    ensures |r| > 1 ==> r[0] != '0'
    decreases n
  {
    if n < 10 then [DigitChar(n)] else FormatNat(n / 10) + [DigitChar(n % 10)]
  }

  /** `str(n)`. */
  function FormatInt(n: int): (r: string)
    ensures |r| > 0 && ':' !in r && '\n' !in r && '\r' !in r
    ensures !IsSpace(r[0]) && IsDigit(r[|r| - 1])
  {
    if n < 0 then "-" + FormatNat(-n) else FormatNat(n)
  }

  lemma {:induction false} FormatNatValue(n: nat)
    ensures DecimalValue(FormatNat(n)) == n
    decreases n
  {
    if n >= 10 {
      FormatNatValue(n / 10);
      var r := FormatNat(n);
      assert r[..|r| - 1] == FormatNat(n / 10);
    }
  }

  /** Plain digits are accepted by `int()` and denote their decimal value. */
  lemma ParseDigits(s: string)
    requires |s| > 0 && AllDigits(s)
    ensures Grouped(s) && DropUnderscores(s) == s
  {
  }

  /** `int()` reads an unsigned digit string as its decimal value. */
  lemma ParseUnsigned(d: string)
    requires |d| > 0 && AllDigits(d)
    ensures ParseInt(d) == Some(DecimalValue(d))
  {
    assert IsDigit(d[0]) && IsDigit(d[|d| - 1]);
    StripTight(d, IntSpace);
    UnsignedDigits(d);
  }

  /** Plain digits, with no sign in front. */
  lemma UnsignedDigits(d: string)
    requires |d| > 0 && AllDigits(d)
    ensures ParseSigned(d) == Some(DecimalValue(d))
  {
    assert IsDigit(d[0]);
    ParseDigits(d);
  }

  /** `int()` reads a minus sign and a digit string as the negated decimal value. */
  lemma ParseNegative(s: string, d: string, m: nat)
    requires |d| > 0 && AllDigits(d) && s == "-" + d && DecimalValue(d) == m
    ensures ParseInt(s) == Some(-(m as int))
  {
    assert s[0] == '-' && !IntSpace(s[0]);
    assert s[|s| - 1] == d[|d| - 1] && IsDigit(s[|s| - 1]);
    StripTight(s, IntSpace);
    assert ParseInt(s) == ParseSigned(s);
    SignedDigits(s, d, m);
  }

  /** A minus sign followed by plain digits. */
  lemma SignedDigits(s: string, d: string, m: nat)
    requires |d| > 0 && AllDigits(d) && s == "-" + d && DecimalValue(d) == m
    ensures ParseSigned(s) == Some(-(m as int))
  {
    assert |s| > 0 && s[0] == '-';
    assert s[1..] == d;
    ParseDigits(d);
  }

  /** `int(str(n)) == n`. */
  lemma ParseFormat(n: int)
    ensures ParseInt(FormatInt(n)) == Some(n)
  {
    if n < 0 {
      ParseFormatNegative(n);
    } else {
      ParseFormatNatural(n);
    }
  }

  lemma ParseFormatNegative(n: int)
    requires n < 0
    ensures ParseInt(FormatInt(n)) == Some(n)
  {
    var m: nat := -n;
    var d := FormatNat(m);
    FormatNatValue(m);
    ParseNegative(FormatInt(n), d, m);
  }

  lemma ParseFormatNatural(n: nat)
    ensures ParseInt(FormatInt(n)) == Some(n)
  {
    var d := FormatNat(n);
    FormatNatValue(n);
    ParseUnsigned(d);
    assert FormatInt(n) == d;
  }

  /**
   * Universal-newline translation applied when a file opened in text mode is
   * read: `\r\n` and a lone `\r` both become `\n`.
   */
  function Translate(s: string): (r: string)
    ensures '\r' !in r
    decreases |s|
  {
    if |s| == 0 then []
    else if s[0] == '\r' then
      if |s| > 1 && s[1] == '\n' then "\n" + Translate(s[2..]) else "\n" + Translate(s[1..])
    else [s[0]] + Translate(s[1..])
  }

  /**
   * The translated text has one `\n` per line break of `s`, and apart from
   * the line breaks it is `s`.
   */
  lemma {:induction false} TranslateCounts(s: string)
    ensures Count(Translate(s), '\n') + CrLf(s) == Count(s, '\n') + Count(s, '\r')
    ensures Remove(Translate(s), '\n') == Remove(Remove(s, '\r'), '\n')
    decreases |s|
  {
    if |s| > 0 {
      if s[0] == '\r' && |s| > 1 && s[1] == '\n' {
        TranslateCounts(s[2..]);
        TranslatePair(s, Translate(s[2..]));
      } else if s[0] == '\r' {
        TranslateCounts(s[1..]);
        TranslateLone(s, Translate(s[1..]));
      } else {
        TranslateCounts(s[1..]);
        TranslateOther(s, Translate(s[1..]));
      }
    }
  }

  /** `s` without the character `c`. */
  function Remove(s: string, c: char): (r: string)
    ensures c !in r && |r| <= |s|
    decreases |s|
  {
    if |s| == 0 then [] else (if s[0] == c then [] else [s[0]]) + Remove(s[1..], c)
  }

  /** Number of `\r\n` pairs in `s`. */
  function CrLf(s: string): nat
    decreases |s|
  {
    if |s| < 2 then 0 else (if s[0] == '\r' && s[1] == '\n' then 1 else 0) + CrLf(s[1..])
  }

  /** Counting over a first character and the rest. */
  lemma CountCons(x: char, s: string, c: char)
    ensures Count([x] + s, c) == (if x == c then 1 else 0) + Count(s, c)
  {
    CountAppend([x], s, c);
    assert [x][..0] == [];
  }

  /** A leading `\r\n` becomes one `\n`. */
  lemma TranslatePair(s: string, rest: string)
    requires |s| > 1 && s[0] == '\r' && s[1] == '\n'
    requires Count(rest, '\n') + CrLf(s[2..]) == Count(s[2..], '\n') + Count(s[2..], '\r')
    requires Remove(rest, '\n') == Remove(Remove(s[2..], '\r'), '\n')
    ensures Count("\n" + rest, '\n') + CrLf(s) == Count(s, '\n') + Count(s, '\r')
    ensures Remove("\n" + rest, '\n') == Remove(Remove(s, '\r'), '\n')
  {
    assert s == "\r\n" + s[2..];
    PairCount(s[2..], rest);
    PairRemove(s[2..], rest);
  }

  /** The counting half of `TranslatePair`. */
  lemma PairCount(t: string, rest: string)
    requires Count(rest, '\n') + CrLf(t) == Count(t, '\n') + Count(t, '\r')
    ensures Count("\n" + rest, '\n') + CrLf("\r\n" + t) == Count("\r\n" + t, '\n') + Count("\r\n" + t, '\r')
  {
    var s := "\r\n" + t;
    assert s == ['\r'] + (['\n'] + t);
    assert s[1..] == ['\n'] + t;
    assert s[2..] == t;
    CountCons('\r', ['\n'] + t, '\n');
    CountCons('\n', t, '\n');
    CountCons('\r', ['\n'] + t, '\r');
    CountCons('\n', t, '\r');
    CountCons('\n', rest, '\n');
  }

  /** The order-keeping half of `TranslatePair`. */
  lemma PairRemove(t: string, rest: string)
    requires Remove(rest, '\n') == Remove(Remove(t, '\r'), '\n')
    ensures Remove("\n" + rest, '\n') == Remove(Remove("\r\n" + t, '\r'), '\n')
  {
    var s := "\r\n" + t;
    assert s[1..] == ['\n'] + t;
    assert ("\n" + rest)[1..] == rest;
    assert Remove(s, '\r') == Remove(s[1..], '\r') == ['\n'] + Remove(t, '\r');
    assert (['\n'] + Remove(t, '\r'))[1..] == Remove(t, '\r');
  }

  /** A lone `\r` becomes `\n`. */
  lemma TranslateLone(s: string, rest: string)
    requires |s| > 0 && s[0] == '\r' && !(|s| > 1 && s[1] == '\n')
    requires Count(rest, '\n') + CrLf(s[1..]) == Count(s[1..], '\n') + Count(s[1..], '\r')
    requires Remove(rest, '\n') == Remove(Remove(s[1..], '\r'), '\n')
    ensures Count("\n" + rest, '\n') + CrLf(s) == Count(s, '\n') + Count(s, '\r')
    ensures Remove("\n" + rest, '\n') == Remove(Remove(s, '\r'), '\n')
  {
    assert s == ['\r'] + s[1..];
    assert CrLf(s) == CrLf(s[1..]);
    CountCons('\r', s[1..], '\n');
    CountCons('\r', s[1..], '\r');
    CountCons('\n', rest, '\n');
    assert ("\n" + rest)[1..] == rest;
    assert Remove("\n" + rest, '\n') == Remove(rest, '\n');
    assert Remove(s, '\r') == Remove(s[1..], '\r');
  }

  /** Any other character is kept. */
  lemma TranslateOther(s: string, rest: string)
    requires |s| > 0 && s[0] != '\r'
    requires Count(rest, '\n') + CrLf(s[1..]) == Count(s[1..], '\n') + Count(s[1..], '\r')
    requires Remove(rest, '\n') == Remove(Remove(s[1..], '\r'), '\n')
    ensures Count([s[0]] + rest, '\n') + CrLf(s) == Count(s, '\n') + Count(s, '\r')
    ensures Remove([s[0]] + rest, '\n') == Remove(Remove(s, '\r'), '\n')
  {
    assert s == [s[0]] + s[1..];
    CountCons(s[0], s[1..], '\n');
    CountCons(s[0], s[1..], '\r');
    CountCons(s[0], rest, '\n');
    assert ([s[0]] + rest)[1..] == rest;
    assert Remove(s, '\r') == [s[0]] + Remove(s[1..], '\r');
    assert ([s[0]] + Remove(s[1..], '\r'))[1..] == Remove(s[1..], '\r');
  }

  /** A character other than `\r` is kept. */
  lemma TranslateKeep(c: char, s: string)
    requires c != '\r'
    ensures Translate([c] + s) == [c] + Translate(s)
  {
    assert ([c] + s)[1..] == s;
  }

  /** A leading `\r\n` becomes one `\n`. */
  lemma TranslatePairCons(s: string)
    ensures Translate("\r\n" + s) == "\n" + Translate(s)
  {
    assert ("\r\n" + s)[2..] == s;
  }

  /** A leading `\r` not followed by `\n` becomes `\n`. */
  lemma TranslateLoneCons(s: string)
    requires s == [] || s[0] != '\n'
    ensures Translate("\r" + s) == "\n" + Translate(s)
  {
    assert ("\r" + s)[1..] == s;
  }

  /**
   * Translation works piece by piece, provided the first piece does not end
   * in a `\r` that the second piece's `\n` would pair with.
   */
  lemma {:induction false} TranslateAppend(a: string, b: string)
    requires a == [] || a[|a| - 1] != '\r'
    ensures Translate(a + b) == Translate(a) + Translate(b)
    decreases |a|
  {
    if a == [] {
      assert a + b == b;
    } else if a[0] == '\r' && a[1] == '\n' {
      assert a == "\r\n" + a[2..];
      TranslateAppend(a[2..], b);
      AppendPair(a[2..], b);
    } else if a[0] == '\r' {
      assert a == "\r" + a[1..];
      TranslateAppend(a[1..], b);
      AppendLone(a[1..], b);
    } else {
      assert a == [a[0]] + a[1..];
      TranslateAppend(a[1..], b);
      AppendKeep(a[0], a[1..], b);
    }
  }

  /** The step of `TranslateAppend` past a leading `\r\n`. */
  lemma AppendPair(t: string, b: string)
    requires Translate(t + b) == Translate(t) + Translate(b)
    ensures Translate("\r\n" + t + b) == Translate("\r\n" + t) + Translate(b)
  {
    PairJoined(t, b);
    TranslatePairCons(t);
    assert "\n" + Translate(t) + Translate(b) == "\n" + (Translate(t) + Translate(b));
  }

  /** A `\r\n` in front of a joined string becomes one `\n`. */
  lemma PairJoined(t: string, b: string)
    ensures Translate("\r\n" + t + b) == "\n" + Translate(t + b)
  {
    assert "\r\n" + t + b == "\r\n" + (t + b);
    TranslatePairCons(t + b);
  }

  /** The step of `TranslateAppend` past a lone leading `\r`. */
  lemma AppendLone(t: string, b: string)
    requires t != [] && t[0] != '\n'
    requires Translate(t + b) == Translate(t) + Translate(b)
    ensures Translate("\r" + t + b) == Translate("\r" + t) + Translate(b)
  {
    assert "\r" + t + b == "\r" + (t + b);
    assert (t + b)[0] == t[0];
    TranslateLoneCons(t);
    TranslateLoneCons(t + b);
    assert "\n" + Translate(t) + Translate(b) == "\n" + (Translate(t) + Translate(b));
  }

  /** The step of `TranslateAppend` past a kept character. */
  lemma AppendKeep(c: char, t: string, b: string)
    requires c != '\r'
    requires Translate(t + b) == Translate(t) + Translate(b)
    ensures Translate([c] + t + b) == Translate([c] + t) + Translate(b)
  {
    assert [c] + t + b == [c] + (t + b);
    TranslateKeep(c, t);
    TranslateKeep(c, t + b);
    assert [c] + Translate(t) + Translate(b) == [c] + (Translate(t) + Translate(b));
  }

  /**
   * Each line break becomes one `\n` in its own place: a `\r\n` pair, a lone
   * `\n`, and a `\r` not followed by `\n`.
   */
  lemma TranslateBreak(a: string, b: string)
    requires a == [] || a[|a| - 1] != '\r'
    ensures Translate(a + "\r\n" + b) == Translate(a) + "\n" + Translate(b)
    ensures Translate(a + "\n" + b) == Translate(a) + "\n" + Translate(b)
    ensures (b == [] || b[0] != '\n') ==> Translate(a + "\r" + b) == Translate(a) + "\n" + Translate(b)
  {
    BreakPair(a, b);
    BreakFeed(a, b);
    if b == [] || b[0] != '\n' {
      BreakLone(a, b);
    }
  }

  /** A `\r\n` pair between two pieces. */
  lemma BreakPair(a: string, b: string)
    requires a == [] || a[|a| - 1] != '\r'
    ensures Translate(a + "\r\n" + b) == Translate(a) + "\n" + Translate(b)
  {
    assert a + "\r\n" + b == a + ("\r\n" + b);
    TranslateAppend(a, "\r\n" + b);
    TranslatePairCons(b);
    assert Translate(a) + "\n" + Translate(b) == Translate(a) + ("\n" + Translate(b));
  }

  /** A lone `\n` between two pieces. */
  lemma BreakFeed(a: string, b: string)
    requires a == [] || a[|a| - 1] != '\r'
    ensures Translate(a + "\n" + b) == Translate(a) + "\n" + Translate(b)
  {
    assert a + "\n" + b == a + ("\n" + b);
    TranslateAppend(a, "\n" + b);
    TranslateKeep('\n', b);
    assert Translate(a) + "\n" + Translate(b) == Translate(a) + ("\n" + Translate(b));
  }

  /** A `\r` between two pieces, not followed by `\n`. */
  lemma BreakLone(a: string, b: string)
    requires a == [] || a[|a| - 1] != '\r'
    requires b == [] || b[0] != '\n'
    ensures Translate(a + "\r" + b) == Translate(a) + "\n" + Translate(b)
  {
    assert a + "\r" + b == a + ("\r" + b);
    TranslateAppend(a, "\r" + b);
    TranslateLoneCons(b);
    assert Translate(a) + "\n" + Translate(b) == Translate(a) + ("\n" + Translate(b));
  }

  /** Text without carriage returns is read back unchanged. */
  lemma {:induction false} TranslatePlain(s: string)
    requires '\r' !in s
    ensures Translate(s) == s
    decreases |s|
  {
    if |s| > 0 {
      assert s[0] != '\r';
      TranslatePlain(s[1..]);
      assert s == [s[0]] + s[1..];
    }
  }

  /** `f.readlines()` on translated text: each line keeps its `\n`, only the last may lack one. */
  function ReadLines(s: string): (r: seq<string>)
    ensures forall k :: 0 <= k < |r| ==> |r[k]| > 0
    decreases |s|
  {
    if |s| == 0 then []
    else
      var i := IndexOf(s, '\n');
      if i == |s| then [s] else [s[..i + 1]] + ReadLines(s[i + 1..])
  }

  /** A newline-free line followed by its `\n` is read as one line. */
  lemma ReadLinesCons(line: string, rest: string)
    requires '\n' !in line
    ensures ReadLines(line + "\n" + rest) == [line + "\n"] + ReadLines(rest)
  {
    var s := line + "\n" + rest;
    assert s[..|line|] == line;
    assert s[|line|] == '\n';
    assert forall k :: 0 <= k < |line| ==> s[k] == line[k] && s[k] != '\n';
    assert IndexOf(s, '\n') == |line|;
    assert s[..|line| + 1] == line + "\n";
    assert s[|line| + 1..] == rest;
  }
}
