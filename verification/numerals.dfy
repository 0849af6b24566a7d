/** `num_to_cn` of libs/subliminal_patch/providers/zimuku.py: spell a season
    number from 1 to 99 in Chinese numerals ("第二季" is season 2), and the
    reading that inverts it. */
module ZimukuNumerals {
  import opened Wrappers
  import opened PyStr

  /** How `num_to_cn` fails: its opening assertion, or a lookup of the digit
      '0' in its digit table. */
  datatype NumError = AssertionFailed | KeyMissing

  /** 十, ten. */
  const Ten: char := '\U{5341}'

  /** The numeral for `d`: 一 二 三 四 五 六 七 八 九 for 1 to 9. */
  function CnDigit(d: nat): (c: char)
    requires 1 <= d <= 9
    ensures c != Ten
  {
    if d == 1 then '\U{4E00}'
    else if d == 2 then '\U{4E8C}'
    else if d == 3 then '\U{4E09}'
    else if d == 4 then '\U{56DB}'
    else if d == 5 then '\U{4E94}'
    else if d == 6 then '\U{516D}'
    else if d == 7 then '\U{4E03}'
    else if d == 8 then '\U{516B}'
    else '\U{4E5D}'
  }

  /** The value of a numeral for 1 to 9, or `None`. */
  function CnValue(c: char): (r: Option<nat>)
    ensures r.Some? ==> 1 <= r.value <= 9 && CnDigit(r.value) == c
  {
    if c == '\U{4E00}' then Some(1)
    else if c == '\U{4E8C}' then Some(2)
    else if c == '\U{4E09}' then Some(3)
    else if c == '\U{56DB}' then Some(4)
    else if c == '\U{4E94}' then Some(5)
    else if c == '\U{516D}' then Some(6)
    else if c == '\U{4E03}' then Some(7)
    else if c == '\U{516B}' then Some(8)
    else if c == '\U{4E5D}' then Some(9)
    else None
  }

  /** `trans_map[c]`: the table built by zipping "123456789" with the
      numerals; '0' and every other character are missing keys. */
  function TransMap(c: char): (r: Option<char>)
    ensures r.Some? <==> '1' <= c <= '9'
    ensures r.Some? ==> r.value == CnDigit(DigitValue(c))
  {
    if '1' <= c <= '9' then Some(CnDigit(DigitValue(c))) else None
  }

  /** `TransMap` as a `num_to_cn` step: a missing key raises. */
  function Lookup(c: char): (r: Result<char, NumError>)
    ensures r.Success? <==> '1' <= c <= '9'
    ensures r.Failure? ==> r.error == KeyMissing
    ensures r.Success? ==> r.value == CnDigit(DigitValue(c))
  {
    match TransMap(c)
    case Some(v) => Success(v)
    case None => Failure(KeyMissing)
  }

  /** The assertion `num_to_cn` opens with: ASCII digits only, and a value
      from 1 to 99 (leading zeros allowed). */
  predicate InRange(number: string)
  {
    IsDigits(number) && 1 <= DecimalValue(number) <= 99
  }

  /** Reads a numeral spelled the way `num_to_cn` spells it: d (1-9), 十
      (10), 十d (11-19), d十 (20, 30, ..., 90) or d十e (the rest), where d is
      never 一; `None` for anything else. */
  function ParseCn(s: string): (r: Option<nat>)
    ensures r.Some? ==> 1 <= r.value <= 99
  {
    if |s| == 1 then
      if s[0] == Ten then Some(10) else CnValue(s[0])
    else if |s| == 2 && s[0] == Ten then
      match CnValue(s[1])
      case Some(u) => Some(10 + u)
      case None => None
    else if |s| == 2 && s[1] == Ten then
      match CnValue(s[0])
      case Some(t) => if t >= 2 then Some(10 * t) else None
      case None => None
    else if |s| == 3 && s[1] == Ten then
      match (CnValue(s[0]), CnValue(s[2]))
      case (Some(t), Some(u)) => if t >= 2 then Some(10 * t + u) else None
      case _ => None
    else
      None
  }

  /** `num_to_cn(number)`: fails the assertion unless `number` is a digit
      string of value 1 to 99; raises a missing key when such a string starts
      with '0' ("05", "007"); otherwise spells the value, which reads back
      through `ParseCn`. Only the lookup of the leading digit can miss: a
      lone digit is not '0' once the value is at least 1, and a trailing '0'
      is never looked up. */
  function NumToCn(number: string): (r: Result<string, NumError>)
    ensures r == Failure(AssertionFailed) <==> !InRange(number)
    ensures r == Failure(KeyMissing) <==> InRange(number) && number[0] == '0'
    ensures r.Success? ==> 1 <= |r.value| <= 3 && ParseCn(r.value) == Some(DecimalValue(number))
  {
    if !InRange(number) then Failure(AssertionFailed)
    else if |number| == 1 then
      OneDigitReads(number);
      Success([CnDigit(DigitValue(number[0]))])
    else
      var part1 :- if number[0] == '1' then Success([Ten]) else
        var t :- Lookup(number[0]);
        Success([t, Ten]);
      var part2 := if number[1] != '0' then [CnDigit(DigitValue(number[1]))] else [];
      TwoDigitsRead(number);
      assert part1 + part2 == TwoDigitSpelling(DigitValue(number[0]), DigitValue(number[1]));
      Success(part1 + part2)
  }

  /** A lone in-range digit is not '0', and its numeral reads back as its
      value. */
  lemma OneDigitReads(number: string)
    requires InRange(number) && |number| == 1
    ensures 1 <= DigitValue(number[0]) && number[0] != '0'
    ensures ParseCn([CnDigit(DigitValue(number[0]))]) == Some(DecimalValue(number))
  {
    assert DecimalValue(number) == DigitValue(number[0]) by {
      assert number[..0] == [];
    }
    assert CnValue(CnDigit(DigitValue(number[0]))) == Some(DigitValue(number[0]));
  }

  /** Two in-range digits without a leading zero: the two-digit spelling of
      their digits reads back as their value. */
  lemma TwoDigitsRead(number: string)
    requires InRange(number) && number[0] != '0' && |number| >= 2
    ensures |number| == 2 && 1 <= DigitValue(number[0])
    ensures ParseCn(TwoDigitSpelling(DigitValue(number[0]), DigitValue(number[1]))) == Some(DecimalValue(number))
  {
    TwoDigits(number);
    var t, u := DigitValue(number[0]), DigitValue(number[1]);
    var n := DecimalValue(number);
    assert ParseCn(TwoDigitSpelling(t, u)) == Some(n) by {
      SpellingReadsBack(t, u);
    }
  }

  /** The spelling of `10 * t + u` for a tens digit `t` of at least 1: 十,
      preceded by `t` unless it is 1, followed by `u` unless it is 0. */
  function TwoDigitSpelling(t: nat, u: nat): (s: string)
    requires 1 <= t <= 9 && u <= 9
    ensures 1 <= |s| <= 3
  {
    (if t == 1 then [Ten] else [CnDigit(t), Ten]) + (if u != 0 then [CnDigit(u)] else [])
  }

  /** The two-digit spelling of `10 * t + u` reads back as that number. */
  lemma SpellingReadsBack(t: nat, u: nat)
    requires 1 <= t <= 9 && u <= 9
    ensures ParseCn(TwoDigitSpelling(t, u)) == Some(10 * t + u)
  {
    var s := TwoDigitSpelling(t, u);
    assert CnValue(CnDigit(t)) == Some(t);
    if u != 0 {
      assert CnValue(CnDigit(u)) == Some(u);
    }
    if t == 1 && u == 0 {
      assert s == [Ten];
    } else if t == 1 {
      assert s == [Ten, CnDigit(u)];
    } else if u == 0 {
      assert s == [CnDigit(t), Ten];
    } else {
      assert s == [CnDigit(t), Ten, CnDigit(u)];
    }
  }

  /** An in-range digit string without a leading zero has at most two
      digits, and two digits are worth ten times the first plus the second. */
  lemma TwoDigits(number: string)
    requires InRange(number) && number[0] != '0' && |number| >= 2
    ensures |number| == 2
    ensures DecimalValue(number) == 10 * DigitValue(number[0]) + DigitValue(number[1])
  {
    NoLeadingZeroBound(number);
    assert number[..1][..0] == [];
    assert number[..|number| - 1] == number[..1] || |number| > 2;
  }

  /** A digit string not starting with '0' is worth at least 10 when it has
      two digits and at least 100 when it has three or more. */
  lemma {:induction false} NoLeadingZeroBound(s: string)
    requires IsDigits(s) && s[0] != '0'
    ensures |s| >= 2 ==> DecimalValue(s) >= 10
    ensures |s| >= 3 ==> DecimalValue(s) >= 100
  {
    if |s| >= 2 {
      var init := s[..|s| - 1];
      assert init[0] == s[0];
      NoLeadingZeroBound(init);
      if |init| == 1 {
        assert init[..0] == [];
        assert DecimalValue(init) == DigitValue(s[0]);
      }
    }
  }

  /** The numeral for `n`: a lone digit below ten, the two-digit spelling
      from ten on. */
  function Spelling(n: nat): (s: string)
    requires 1 <= n <= 99
    ensures 1 <= |s| <= 3
  {
    if n < 10 then [CnDigit(n)] else TwoDigitSpelling(n / 10, n % 10)
  }

  /** Every spelling reads back as the number spelled. */
  lemma SpellingParses(n: nat)
    requires 1 <= n <= 99
    ensures ParseCn(Spelling(n)) == Some(n)
  {
    if n < 10 {
      assert CnValue(CnDigit(n)) == Some(n);
    } else {
      var t, u := n / 10, n % 10;
      assert Spelling(n) == TwoDigitSpelling(t, u);
      SpellingReadsBack(t, u);
      assert 10 * t + u == n;
    }
  }

  /** The two-digit spelling is the spelling of its number. */
  lemma SpellingDigits(t: nat, u: nat)
    requires 1 <= t <= 9 && u <= 9
    ensures Spelling(10 * t + u) == TwoDigitSpelling(t, u)
  {
    var n := 10 * t + u;
    DigitsOf(n, t, u);
    assert Spelling(n) == TwoDigitSpelling(n / 10, n % 10);
  }

  /** The tens and units digits of `10 * t + u`. */
  lemma DigitsOf(n: int, t: int, u: int)
    requires n == 10 * t + u && 0 <= u <= 9
    ensures n / 10 == t && n % 10 == u
  {
  }

  /** `ParseCn` accepts only canonical spellings: each value has one. */
  lemma ParseCnCanonical(s: string)
    requires ParseCn(s).Some?
    ensures s == Spelling(ParseCn(s).value)
  {
    if |s| == 1 && s[0] == Ten {
      SpellingDigits(1, 0);
    } else if |s| == 1 {
    } else if |s| == 2 && s[0] == Ten {
      TenThenUnit(s);
    } else if |s| == 2 {
      TensThenTen(s);
    } else {
      FullSpelling(s);
    }
  }

  /** 十 followed by a units numeral. */
  lemma TenThenUnit(s: string)
    requires |s| == 2 && s[0] == Ten && CnValue(s[1]).Some?
    ensures s == Spelling(10 + CnValue(s[1]).value)
  {
    var u := CnValue(s[1]).value;
    SpellingDigits(1, u);
    assert s == [Ten, CnDigit(u)];
  }

  /** A tens numeral followed by 十. */
  lemma TensThenTen(s: string)
    requires |s| == 2 && s[1] == Ten && CnValue(s[0]).Some? && CnValue(s[0]).value >= 2
    ensures s == Spelling(10 * CnValue(s[0]).value)
  {
    var t := CnValue(s[0]).value;
    SpellingDigits(t, 0);
    assert s == [CnDigit(t), Ten];
  }

  /** A tens numeral, 十, and a units numeral. */
  lemma FullSpelling(s: string)
    requires |s| == 3 && s[1] == Ten && CnValue(s[0]).Some? && CnValue(s[2]).Some?
    requires CnValue(s[0]).value >= 2
    ensures s == Spelling(10 * CnValue(s[0]).value + CnValue(s[2]).value)
  {
    var t, u := CnValue(s[0]).value, CnValue(s[2]).value;
    SpellingDigits(t, u);
    assert s == [CnDigit(t), Ten, CnDigit(u)];
  }

  /** Every season number from 1 to 99, written as `str(n)`, is spelled and
      reads back as itself. */
  lemma NumToCnRoundTrip(n: nat)
    requires 1 <= n <= 99
    ensures NumToCn(DecimalString(n)).Success?
    ensures ParseCn(NumToCn(DecimalString(n)).value) == Some(n)
  {
    var d := DecimalString(n);
    DecimalRoundTrip(n);
    if |d| == 1 {
      assert d[..0] == [];
      assert DecimalValue(d) == DigitValue(d[0]);
    }
  }

  /** Every numeral `ParseCn` accepts is exactly what `num_to_cn` produces
      for its value. */
  lemma ParseCnRoundTrip(s: string)
    requires ParseCn(s).Some?
    ensures NumToCn(DecimalString(ParseCn(s).value)) == Success(s)
  {
    var n := ParseCn(s).value;
    NumToCnRoundTrip(n);
    ParseCnCanonical(s);
    ParseCnCanonical(NumToCn(DecimalString(n)).value);
  }

  /** A leading zero passes the assertion but then misses the digit table;
      ten is a bare 十. */
  lemma NumToCnEdges()
    ensures NumToCn("05") == Failure(KeyMissing)
    ensures NumToCn("007") == Failure(KeyMissing)
    ensures NumToCn("0") == Failure(AssertionFailed)
    ensures NumToCn("100") == Failure(AssertionFailed)
    ensures NumToCn("10") == Success([Ten])
  {
    assert InRange("05") by { assert "05"[..1][..0] == []; }
    assert InRange("007") by { assert "007"[..2][..1][..0] == []; }
    assert !InRange("0") by { assert "0"[..0] == []; }
    assert DecimalValue("100") == 100 by {
      assert "100"[..2][..1][..0] == [];
    }
    assert ParseCn(NumToCn("10").value) == Some(10) by {
      assert "10"[..1][..0] == [];
    }
    ParseCnCanonical(NumToCn("10").value);
    assert Spelling(10) == [Ten];
  }
}
