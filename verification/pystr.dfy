/** The handful of Python string and `os.path` primitives the subtitle helpers
    rely on, written out over `seq<char>` (a Python `str` is a sequence of code
    points, as a Dafny `string` is). Paths follow POSIX `os.path`: the separator
    is '/'. */
module PyStr {
  import opened Wrappers

  // ---------------------------------------------------------------------------
  // Searching

  /** `pat in s` on Python strings: `pat` occurs contiguously in `s`. */
  predicate Contains(s: string, pat: string)
  {
    pat <= s || (|s| > 0 && Contains(s[1..], pat))
  }

  /** Every character of a contained pattern occurs in the string; so a
      pattern holding a character the string lacks is not contained. */
  lemma {:induction false} MissingCharNotContained(s: string, pat: string, k: int)
    requires 0 <= k < |pat| && pat[k] !in s
    ensures !Contains(s, pat)
  {
    if |s| > 0 {
      MissingCharNotContained(s[1..], pat, k);
    }
  }

  /** `s.startswith(pre)`. */
  predicate StartsWith(s: string, pre: string)
  {
    pre <= s
  }

  /** `s.endswith(suf)`. */
  predicate EndsWith(s: string, suf: string)
  {
    |suf| <= |s| && s[|s| - |suf|..] == suf
  }

  /** `s.endswith(sufs)` for a tuple of suffixes: any one of them will do. */
  predicate EndsWithAny(s: string, sufs: seq<string>)
  {
    exists i | 0 <= i < |sufs| :: EndsWith(s, sufs[i])
  }

  /** `s.rfind(c)`: the index of the last occurrence of `c`, or -1. */
  function RFind(s: string, c: char): (r: int)
    ensures -1 <= r < |s|
    ensures r >= 0 ==> s[r] == c
    ensures forall k | r < k < |s| :: s[k] != c
  {
    if |s| == 0 then -1
    else if s[|s| - 1] == c then |s| - 1
    else RFind(s[..|s| - 1], c)
  }

  // ---------------------------------------------------------------------------
  // Case and whitespace

  /** `c.lower()` restricted to ASCII: only 'A'..'Z' change. */
  function LowerChar(c: char): char
  {
    if 'A' <= c <= 'Z' then (c as int - 'A' as int + 'a' as int) as char else c
  }

  /** `s.lower()`, with the ASCII restriction of `LowerChar`. */
  function Lower(s: string): (r: string)
    ensures |r| == |s|
    ensures forall i | 0 <= i < |s| :: r[i] == LowerChar(s[i])
  {
    seq(|s|, i requires 0 <= i < |s| => LowerChar(s[i]))
  }

  /** The characters for which Python's `str.isspace()` holds; `str.strip()`
      with no argument removes exactly these. */
  predicate IsSpace(c: char)
  {
    || c == ' ' || c == '\t' || c == '\n' || c == '\r'
    || c == '\U{000B}' || c == '\U{000C}'
    || ('\U{001C}' <= c <= '\U{001F}')
    || c == '\U{0085}' || c == '\U{00A0}' || c == '\U{1680}'
    || ('\U{2000}' <= c <= '\U{200A}')
    || c == '\U{2028}' || c == '\U{2029}' || c == '\U{202F}'
    || c == '\U{205F}' || c == '\U{3000}'
  }

  /** `s.lstrip()`: drops the leading whitespace and nothing else. */
  function LStrip(s: string): (r: string)
    ensures |r| <= |s| && r == s[|s| - |r|..]
    ensures forall i | 0 <= i < |s| - |r| :: IsSpace(s[i])
    ensures |r| > 0 ==> !IsSpace(r[0])
  {
    if |s| > 0 && IsSpace(s[0]) then LStrip(s[1..]) else s
  }

  /** `s.rstrip()`: drops the trailing whitespace and nothing else. */
  function RStrip(s: string): (r: string)
    ensures |r| <= |s| && r == s[..|r|]
    ensures forall i | |r| <= i < |s| :: IsSpace(s[i])
    ensures |r| > 0 ==> !IsSpace(r[|r| - 1])
  {
    if |s| > 0 && IsSpace(s[|s| - 1]) then RStrip(s[..|s| - 1]) else s
  }

  /** The number of whitespace characters `s` starts with. */
  function LeadingSpaces(s: string): (n: nat)
    ensures n <= |s|
    ensures forall i | 0 <= i < n :: IsSpace(s[i])
    ensures n < |s| ==> !IsSpace(s[n])
  {
    |s| - |LStrip(s)|
  }

  /** `s.strip()`: the slice of `s` left once whitespace is removed from both
      ends; it neither starts nor ends with whitespace. */
  function Strip(s: string): (r: string)
    ensures LeadingSpaces(s) + |r| <= |s|
    ensures r == s[LeadingSpaces(s)..LeadingSpaces(s) + |r|]
    ensures forall i | LeadingSpaces(s) + |r| <= i < |s| :: IsSpace(s[i])
    ensures |r| > 0 ==> !IsSpace(r[0]) && !IsSpace(r[|r| - 1])
  {
    var l := LStrip(s);
    var r := RStrip(l);
    assert r == s[|s| - |l|..][..|r|];
    r
  }

  // ---------------------------------------------------------------------------
  // os.path (POSIX)

  /** `os.path.split(p)[-1]`: everything after the last '/'. */
  function Basename(p: string): (r: string)
    ensures EndsWith(p, r)
    ensures forall i | 0 <= i < |r| :: r[i] != '/'
    ensures |r| < |p| ==> p[|p| - |r| - 1] == '/'
  {
    p[RFind(p, '/') + 1..]
  }

  /** Some character of `p[lo..hi]` is not a dot. */
  predicate HasNonDot(p: string, lo: int, hi: int)
    requires 0 <= lo && hi <= |p|
  {
    exists k | lo <= k < hi :: p[k] != '.'
  }

  /** `os.path.splitext(p)`: the extension starts at the last dot of the base
      name, unless every character before that dot in the base name is a dot
      itself (so ".bashrc" and "..a" have no extension). */
  function SplitExt(p: string): (r: (string, string))
    ensures r.0 + r.1 == p
    ensures r.1 != "" ==>
      && r.1[0] == '.'
      && (forall i | 1 <= i < |r.1| :: r.1[i] != '.' && r.1[i] != '/')
      && (exists k | RFind(p, '/') < k < |r.0| :: r.0[k] != '.')
    ensures r.1 == "" ==>
      forall i, j | RFind(p, '/') < i < j < |p| :: p[i] != '.' ==> p[j] != '.'
  {
    var sep := RFind(p, '/');
    var dot := RFind(p, '.');
    if dot > sep && HasNonDot(p, sep + 1, dot) then
      (p[..dot], p[dot..])
    else
      (p, "")
  }

  // ---------------------------------------------------------------------------
  // Decimal numbers

  predicate IsDigit(c: char)
  {
    '0' <= c <= '9'
  }

  /** `s.isdigit()` restricted to ASCII digits: non-empty, digits only. */
  predicate IsDigits(s: string)
  {
    |s| > 0 && forall i | 0 <= i < |s| :: IsDigit(s[i])
  }

  function DigitChar(d: nat): (c: char)
    requires d < 10
    ensures IsDigit(c)
  {
    (d + '0' as int) as char
  }

  function DigitValue(c: char): (d: nat)
    requires IsDigit(c)
    ensures d < 10 && DigitChar(d) == c
  {
    c as int - '0' as int
  }

  /** `int(s)` for a string of ASCII digits (leading zeros allowed). */
  function DecimalValue(s: string): nat
    requires forall i | 0 <= i < |s| :: IsDigit(s[i])
  {
    if |s| == 0 then 0 else DecimalValue(s[..|s| - 1]) * 10 + DigitValue(s[|s| - 1])
  }

  /** `str(n)` for a non-negative `n`: the canonical decimal spelling. */
  function DecimalString(n: nat): (r: string)
    ensures IsDigits(r)
    ensures |r| > 1 ==> r[0] != '0'
  {
    if n < 10 then [DigitChar(n)] else DecimalString(n / 10) + [DigitChar(n % 10)]
  }

  /** `int(str(n)) == n`. */
  lemma {:induction false} DecimalRoundTrip(n: nat)
    ensures DecimalValue(DecimalString(n)) == n
  {
    if n >= 10 {
      DecimalRoundTrip(n / 10);
      var s := DecimalString(n);
      assert s[..|s| - 1] == DecimalString(n / 10);
    }
  }

  /** Leading zeros do not change `int(s)`. */
  lemma {:induction false} LeadingZerosIgnored(z: string, s: string)
    requires forall i | 0 <= i < |z| :: z[i] == '0'
    requires forall i | 0 <= i < |s| :: IsDigit(s[i])
    ensures forall i | 0 <= i < |z + s| :: IsDigit((z + s)[i])
    ensures DecimalValue(z + s) == DecimalValue(s)
  {
    if |s| == 0 {
      assert z + s == z;
      AllZeros(z);
    } else {
      var t := z + s;
      assert t[..|t| - 1] == z + s[..|s| - 1];
      LeadingZerosIgnored(z, s[..|s| - 1]);
    }
  }

  lemma {:induction false} AllZeros(z: string)
    requires forall i | 0 <= i < |z| :: z[i] == '0'
    ensures DecimalValue(z) == 0
  {
    if |z| > 0 {
      AllZeros(z[..|z| - 1]);
    }
  }

  // ---------------------------------------------------------------------------
  // str.format for integers

  function Repeat(c: char, n: nat): (r: string)
    ensures |r| == n
    ensures forall i | 0 <= i < n :: r[i] == c
  {
    seq(n, _ => c)
  }

  /** Right-justifies `s` in a field of `width` characters filled with `fill`. */
  function PadLeft(s: string, width: int, fill: char): (r: string)
    ensures |r| == if |s| >= width then |s| else width
    ensures EndsWith(r, s)
    ensures forall i | 0 <= i < |r| - |s| :: r[i] == fill
  {
    if |s| >= width then s else Repeat(fill, width - |s|) + s
  }

  /** Python's `format(n, "0<width>d")`: the zeros go between the sign and the
      digits, and the sign counts toward the width. */
  function FormatZeroPadded(n: int, width: nat): (r: string)
    ensures |r| == Max(width, |SignedDecimal(n)|)
    ensures (|r| > 0 && r[0] == '-') <==> n < 0
    ensures n >= 0 ==> IsDigits(r)
    ensures n < 0 ==> IsDigits(r[1..])
  {
    var m: nat := if n < 0 then -n else n;
    var w := if n < 0 then width - 1 else width;
    var p := PadLeft(DecimalString(m), w, '0');
    assert IsDigits(p) by {
      ZeroPadKeepsValue(DecimalString(m), w);
    }
    SignedLength(n);
    SignedPad(n < 0, p);
    if n < 0 then "-" + p else p
  }

  /** A digit string with an optional minus sign in front. */
  lemma SignedPad(neg: bool, p: string)
    requires IsDigits(p)
    ensures var r := if neg then "-" + p else p;
      && |r| == (if neg then 1 else 0) + |p|
      && ((|r| > 0 && r[0] == '-') <==> neg)
      && (!neg ==> IsDigits(r))
      && (neg ==> IsDigits(r[1..]))
  {
    assert IsDigit(p[0]);
    if neg {
      assert ("-" + p)[1..] == p;
    }
  }

  /** Python's `format(n, "<width>d")`: `str(n)` right-justified with spaces,
      in front of the sign. */
  function FormatSpacePadded(n: int, width: nat): (r: string)
    ensures |r| == Max(width, |SignedDecimal(n)|)
    ensures EndsWith(r, SignedDecimal(n))
    ensures forall i | 0 <= i < |r| - |SignedDecimal(n)| :: r[i] == ' '
  {
    PadLeft(SignedDecimal(n), width, ' ')
  }

  function Max(a: int, b: int): int
  {
    if a >= b then a else b
  }

  /** `str(n)` is the digits of `|n|`, after a minus sign when `n` is
      negative. */
  lemma SignedLength(n: int)
    ensures |SignedDecimal(n)| == (if n < 0 then 1 else 0) + |DecimalString(if n < 0 then -n else n)|
  {
  }

  /** Reads back an optionally signed run of ASCII digits (Python's `int(s)`
      without surrounding whitespace); `None` for anything else. */
  function ParseInt(s: string): Option<int>
  {
    if |s| > 0 && s[0] == '-' && IsDigits(s[1..]) then Some(-(DecimalValue(s[1..]) as int))
    else if IsDigits(s) then Some(DecimalValue(s))
    else None
  }

  /** Zero padding keeps a digit string a digit string of the same value. */
  lemma ZeroPadKeepsValue(d: string, width: int)
    requires IsDigits(d)
    ensures IsDigits(PadLeft(d, width, '0'))
    ensures DecimalValue(PadLeft(d, width, '0')) == DecimalValue(d)
  {
    var p := PadLeft(d, width, '0');
    var z := p[..|p| - |d|];
    assert p == z + d;
    LeadingZerosIgnored(z, d);
  }

  /** `int(d)` for a digit string. */
  lemma ParseDigits(d: string)
    requires IsDigits(d)
    ensures ParseInt(d) == Some(DecimalValue(d))
  {
    assert d[0] != '-' by { assert IsDigit(d[0]); }
  }

  /** `int("-" + d)` for a digit string. */
  lemma ParseNegative(d: string)
    requires IsDigits(d)
    ensures ParseInt("-" + d) == Some(-(DecimalValue(d) as int))
  {
    assert ("-" + d)[1..] == d;
  }

  /** The zero-padded spelling reads back as the same number and fills at
      least the requested width. */
  lemma ZeroPaddedRoundTrip(n: int, width: nat)
    ensures ParseInt(FormatZeroPadded(n, width)) == Some(n)
    ensures |FormatZeroPadded(n, width)| >= width
  {
    var m: nat := if n < 0 then -n else n;
    var w := if n < 0 then width - 1 else width;
    var p := PadLeft(DecimalString(m), w, '0');
    assert FormatZeroPadded(n, width) == if n < 0 then "-" + p else p;
    ZeroPadKeepsValue(DecimalString(m), w);
    DecimalRoundTrip(m);
    if n < 0 {
      ParseNegative(p);
    } else {
      ParseDigits(p);
    }
  }

  /** Space padding is undone by `lstrip()` when the padded text does not
      itself start with whitespace. */
  lemma SpacePadStripped(core: string, width: int)
    requires |core| > 0 && !IsSpace(core[0])
    ensures LStrip(PadLeft(core, width, ' ')) == core
  {
    var p := PadLeft(core, width, ' ');
    var pad := p[..|p| - |core|];
    assert p == pad + core;
    StripSpacesPrefix(pad, core);
  }

  /** The space-padded spelling reads back as the same number once its
      leading spaces are stripped, and fills at least the requested width. */
  lemma SpacePaddedRoundTrip(n: int, width: nat)
    ensures ParseInt(LStrip(FormatSpacePadded(n, width))) == Some(n)
    ensures |FormatSpacePadded(n, width)| >= width
  {
    var core := SignedDecimal(n);
    assert FormatSpacePadded(n, width) == PadLeft(core, width, ' ');
    SignedDecimalParses(n);
    SpacePadStripped(core, width);
  }

  /** Python's `str(n)` for any integer. */
  function SignedDecimal(n: int): string
  {
    (if n < 0 then "-" else "") + DecimalString(if n < 0 then -n else n)
  }

  /** `str(n)` does not start with whitespace and reads back as `n`. */
  lemma SignedDecimalParses(n: int)
    ensures |SignedDecimal(n)| > 0 && !IsSpace(SignedDecimal(n)[0])
    ensures ParseInt(SignedDecimal(n)) == Some(n)
  {
    var m: nat := if n < 0 then -n else n;
    var d := DecimalString(m);
    var s := SignedDecimal(n);
    assert s == (if n < 0 then "-" else "") + d;
    assert s[0] == '-' || IsDigit(s[0]) by {
      assert IsDigit(d[0]);
    }
    SignNotSpace(s[0]);
    DecimalRoundTrip(m);
    if n < 0 {
      assert s == "-" + d;
      ParseNegative(d);
    } else {
      assert s == d;
      ParseDigits(d);
    }
  }

  /** Neither a digit nor a minus sign is whitespace. */
  lemma SignNotSpace(c: char)
    requires c == '-' || IsDigit(c)
    ensures !IsSpace(c)
  {
  }

  lemma {:induction false} StripSpacesPrefix(pad: string, core: string)
    requires forall i | 0 <= i < |pad| :: IsSpace(pad[i])
    requires |core| > 0 && !IsSpace(core[0])
    ensures LStrip(pad + core) == core
  {
    if |pad| > 0 {
      assert (pad + core)[1..] == pad[1..] + core;
      StripSpacesPrefix(pad[1..], core);
    } else {
      assert pad + core == core;
    }
  }
}
