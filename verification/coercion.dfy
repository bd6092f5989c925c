/** The conversion of one raw CSV field into the typed value stored in its
    column. The source runs two stages per field: a sentinel stage for an
    empty field of a non-string column, then a type stage that always
    assigns. The type stage therefore decides the stored value; `Coerce` is
    that value, and `SentinelStageRedundant` shows the first stage never
    disagrees with it. */
module Coercion {
  import opened Text
  import opened Results
  import opened Schema

  /** A typed cell. Floats are kept as exact rationals and dates as the text
      numpy was given; `NaT` and `NaN` are the missing-value sentinels. */
  datatype Value = Str(text: string) | Int(n: int) | Day(date: string) | NaT | Num(x: real) | NaN

  /** A value fits a column of kind `k`. */
  predicate HasKind(v: Value, k: Kind) {
    match k
    case Text(w) => v.Str? && (w.None? || |v.text| <= w.value)
    case Integer => v.Int?
    case Date => v.Day? || v.NaT?
    case Float => v.Num? || v.NaN?
  }

  /** The documented missing-value policy: -1 for integers, not-a-time for
      dates, not-a-number for floats, and the empty string for strings. */
  function MissingValue(k: Kind): Value {
    match k
    case Text(_) => Str("")
    case Integer => Int(-1)
    case Date => NaT
    case Float => NaN
  }

  /** Every ',' rewritten to '.', nothing else touched. */
  function ReplaceCommas(s: string): (r: string)
    ensures |r| == |s|
    ensures forall i :: 0 <= i < |s| ==> r[i] == (if s[i] == ',' then '.' else s[i])
  {
    if |s| == 0 then "" else [if s[0] == ',' then '.' else s[0]] + ReplaceCommas(s[1..])
  }

  /** The first position of `c` in `s`, or `|s|` when it does not occur. */
  function IndexOf(s: string, c: char): (k: nat)
    ensures k <= |s|
    ensures k < |s| ==> s[k] == c
    ensures forall i :: 0 <= i < k ==> s[i] != c
  {
    if |s| == 0 then 0 else if s[0] == c then 0 else 1 + IndexOf(s[1..], c)
  }

  /** An optional sign followed by one or more decimal digits. */
  function ParseInt(s: string): Option<int> {
    if |s| > 0 && (s[0] == '+' || s[0] == '-') then
      if |s| > 1 && AllDigits(s[1..]) then
        var m: int := NatOf(s[1..]);
        Some(if s[0] == '-' then -m else m)
      else None
    else if |s| > 0 && AllDigits(s) then Some(NatOf(s))
    else None
  }

  /** The value of the decimal numeral with whole part `whole` and
      fraction digits `frac`. */
  function Decimal(whole: nat, frac: string): real
    requires AllDigits(frac)
  {
    whole as real + NatOf(frac) as real / Pow10(|frac|) as real
  }

  /** Digits, optionally split by one '.', with at least one digit in all. */
  function ParseUnsignedDecimal(s: string): Option<real> {
    var k := IndexOf(s, '.');
    var whole := s[..k];
    var frac := if k < |s| then s[k + 1..] else "";
    if AllDigits(whole) && AllDigits(frac) && |whole| + |frac| > 0 then
      Some(Decimal(NatOf(whole), frac))
    else None
  }

  /** An optionally signed decimal number with a '.' separator. */
  function ParseFloat(s: string): Option<real> {
    if |s| > 0 && (s[0] == '+' || s[0] == '-') then
      match ParseUnsignedDecimal(s[1..])
      case Some(x) => Some(if s[0] == '-' then -x else x)
      case None => None
    else ParseUnsignedDecimal(s)
  }

  /** The spellings numpy reads as not-a-time: the empty string and "nat"
      in any letter case. */
  predicate IsNaTText(s: string) {
    s == "" || (|s| == 3 && s[0] in "nN" && s[1] in "aA" && s[2] in "tT")
  }

  function Truncate(s: string, width: Option<nat>): string {
    if width.Some? && |s| > width.value then s[..width.value] else s
  }

  /** The sentinel stage: what the source stores first when the raw field is
      empty and the column is not a string column. The three letter tests are
      independent, so a later one overrides an earlier one. */
  function SentinelStage(raw: string, dtype: string): Option<Value> {
    if raw == "" && 'U' !in dtype then
      if 'f' in dtype then Some(NaN)
      else if 'M' in dtype then Some(NaT)
      else if 'i' in dtype then Some(Int(-1))
      else None
    else None
  }

  /** The stored value of a field: the type stage, which runs for every
      field. Dates are taken as given (not-a-time for its spellings); floats
      have every ',' rewritten to '.' before parsing and become not-a-number
      when the text does not parse; strings are cut to the declared width;
      integers become -1 when the text does not parse. */
  function Coerce(raw: string, dtype: string): (v: Value)
    ensures HasKind(v, KindOf(dtype))
    ensures raw == "" ==> v == MissingValue(KindOf(dtype))
    ensures KindOf(dtype).Text? ==> v.text <= raw
    ensures KindOf(dtype).Text? && (TextWidth(dtype).None? || |raw| <= TextWidth(dtype).value) ==> v == Str(raw)
    ensures KindOf(dtype).Text? && TextWidth(dtype).Some? && |raw| > TextWidth(dtype).value ==>
      v == Str(raw[..TextWidth(dtype).value])
    ensures KindOf(dtype).Date? && raw != "" && !IsNaTText(raw) ==> v == Day(raw)
  {
    if 'M' in dtype then
      if IsNaTText(raw) then NaT else Day(raw)
    else if 'f' in dtype then
      match ParseFloat(ReplaceCommas(raw))
      case Some(x) => Num(x)
      case None => NaN
    else if 'U' in dtype then
      Str(Truncate(raw, TextWidth(dtype)))
    else
      match ParseInt(raw)
      case Some(n) => Int(n)
      case None => Int(-1)
  }

  /** Whenever the sentinel stage stores a value, the type stage that follows
      stores the same one, so dropping the sentinel stage changes nothing. */
  lemma SentinelStageRedundant(raw: string, dtype: string)
    requires SingleClass(dtype)
    requires SentinelStage(raw, dtype).Some?
    ensures Coerce(raw, dtype) == SentinelStage(raw, dtype).value
  {
  }

  /** Every empty field of a table column takes the documented sentinel, and
      an empty string-column field stays empty. */
  lemma EmptyFields()
    ensures forall i :: 0 <= i < |DataTypes| ==> Coerce("", DataTypes[i]) == MissingValue(KindOf(DataTypes[i]))
    ensures forall i :: 0 <= i < |DataTypes| && KindOf(DataTypes[i]).Text? ==> Coerce("", DataTypes[i]) == Str("")
  {
  }

  lemma {:induction false} ReplaceCommasAppend(a: string, b: string)
    ensures ReplaceCommas(a + b) == ReplaceCommas(a) + ReplaceCommas(b)
  {
    var r, s := ReplaceCommas(a + b), ReplaceCommas(a) + ReplaceCommas(b);
    assert |r| == |s|;
    forall i | 0 <= i < |r|
      ensures r[i] == s[i]
    {
      if i < |a| {
        assert (a + b)[i] == a[i];
      } else {
        assert (a + b)[i] == b[i - |a|];
      }
    }
  }

  /** A decimal comma and a decimal point read the same in a float column. */
  lemma CommaAndPointAgree(before: string, after: string, dtype: string)
    requires KindOf(dtype).Float?
    ensures Coerce(before + "," + after, dtype) == Coerce(before + "." + after, dtype)
  {
    ReplaceCommasAppend(before + ",", after);
    ReplaceCommasAppend(before, ",");
    ReplaceCommasAppend(before + ".", after);
    ReplaceCommasAppend(before, ".");
  }

  lemma ReplaceCommasNoComma(s: string)
    requires ',' !in s
    ensures ReplaceCommas(s) == s
  {
  }

  lemma {:induction false} PointDecimal(whole: string, frac: string)
    requires AllDigits(whole) && |whole| > 0 && AllDigits(frac)
    ensures ParseFloat(whole + "." + frac) == Some(Decimal(NatOf(whole), frac))
  {
    var t := whole + "." + frac;
    assert t[0] == whole[0];
    assert IndexOf(t, '.') == |whole| by {
      assert forall i :: 0 <= i < |whole| ==> t[i] == whole[i];
      assert t[|whole|] == '.';
    }
    assert t[..|whole|] == whole && t[|whole| + 1..] == frac;
  }

  lemma DecimalHasNoComma(whole: string, frac: string)
    requires AllDigits(whole) && AllDigits(frac)
    ensures ',' !in whole + "." + frac
  {
    var t := whole + "." + frac;
    forall i | 0 <= i < |t|
      ensures t[i] != ','
    {
      if i < |whole| {
        assert t[i] == whole[i];
      } else if i > |whole| {
        assert t[i] == frac[i - |whole| - 1];
      }
    }
  }

  lemma CoerceFloatText(raw: string, dtype: string, x: real)
    requires KindOf(dtype).Float? && ParseFloat(ReplaceCommas(raw)) == Some(x)
    ensures Coerce(raw, dtype) == Num(x)
  {
  }

  /** A whole number with a comma-separated fraction coerces to the exact
      rational it spells. */
  lemma {:induction false} CommaDecimal(whole: nat, frac: string, dtype: string)
    requires AllDigits(frac)
    requires KindOf(dtype).Float?
    ensures Coerce(NatToString(whole) + "," + frac, dtype)
         == Num(Decimal(whole, frac))
  {
    var w := NatToString(whole);
    var t := w + "." + frac;
    var x := Decimal(whole, frac);
    CommaAndPointAgree(w, frac, dtype);
    DecimalHasNoComma(w, frac);
    ReplaceCommasNoComma(t);
    NatRoundTrip(whole);
    PointDecimal(w, frac);
    assert NatOf(w) == whole;
    CoerceFloatText(t, dtype, x);
  }

  /** A leading minus negates a float text that starts with a digit. */
  lemma NegativeFloat(u: string, x: real, dtype: string)
    requires KindOf(dtype).Float?
    requires |u| > 0 && IsDigit(u[0]) && ',' !in u && ParseFloat(u) == Some(x)
    ensures Coerce("-" + u, dtype) == Num(-x)
  {
    UnsignedFromDigit(u);
    NegativeSign(u);
    ReplaceCommasNoComma("-" + u);
    CoerceFloatText("-" + u, dtype, -x);
  }

  lemma UnsignedFromDigit(u: string)
    requires |u| > 0 && IsDigit(u[0])
    ensures ParseFloat(u) == ParseUnsignedDecimal(u)
  {
  }

  lemma NegativeSign(u: string)
    requires ParseUnsignedDecimal(u).Some? && ',' !in u
    ensures ParseFloat("-" + u) == Some(-ParseUnsignedDecimal(u).value)
    ensures ',' !in "-" + u
  {
    var t := "-" + u;
    assert t[0] == '-' && t[1..] == u;
  }

  /** A negative number with a comma-separated fraction, as the coordinate
      columns hold, coerces to the exact negative rational it spells. */
  lemma {:induction false} NegativeCommaDecimal(whole: nat, frac: string, dtype: string)
    requires AllDigits(frac)
    requires KindOf(dtype).Float?
    ensures Coerce("-" + NatToString(whole) + "," + frac, dtype)
         == Num(-Decimal(whole, frac))
  {
    var w := NatToString(whole);
    CommaAndPointAgree("-" + w, frac, dtype);
    assert "-" + w + "." + frac == "-" + (w + "." + frac);
    NegativePointCoerce(whole, frac, dtype);
  }

  lemma NegativePointCoerce(whole: nat, frac: string, dtype: string)
    requires AllDigits(frac)
    requires KindOf(dtype).Float?
    ensures Coerce("-" + (NatToString(whole) + "." + frac), dtype) == Num(-Decimal(whole, frac))
  {
    var w := NatToString(whole);
    var u := w + "." + frac;
    PointDecimal(w, frac);
    DecimalHasNoComma(w, frac);
    NatRoundTrip(whole);
    assert u[0] == w[0];
    NegativeFloat(u, Decimal(whole, frac), dtype);
  }

  /** The worked examples: "12,5" reads as 12.5 and an empty float field as
      not-a-number. */
  lemma FloatExamples()
    ensures Coerce("12,5", "f8") == Num(12.5)
    ensures Coerce("", "f8") == NaN
  {
    assert KindOf("f8") == Float by {
      assert 'M' !in "f8" && "f8"[0] == 'f';
    }
    assert NatToString(12) == "12" by {
      assert NatToString(1) == "1" && NatToString(12) == NatToString(1) + [DigitChar(2)];
    }
    assert NatOf("5") == 5 by {
      assert "5"[..0] == "";
    }
    assert Decimal(12, "5") == 12.5 by {
      assert Pow10(1) == 10;
    }
    CommaDecimal(12, "5", "f8");
    assert NatToString(12) + "," + "5" == "12,5";
  }

  /** The decimal spelling of an integer. */
  function IntToString(n: int): (s: string)
    ensures |s| > 0
  {
    if n < 0 then "-" + NatToString(-n) else NatToString(n)
  }

  /** Printing an integer and storing it in an integer column gives it back. */
  lemma IntRoundTrip(n: int, dtype: string)
    requires KindOf(dtype).Integer?
    ensures Coerce(IntToString(n), dtype) == Int(n)
  {
    var s := IntToString(n);
    if n < 0 {
      assert s[0] == '-' && s[1..] == NatToString(-n);
      NatRoundTrip(-n);
      assert ParseInt(s) == Some(n);
    } else {
      NatRoundTrip(n);
      assert s[0] != '+' && s[0] != '-';
      assert ParseInt(s) == Some(n);
    }
  }

  /** A character other than a digit, anywhere but a leading sign, makes an
      integer field unparseable, and it is stored as -1. */
  lemma IntRejectsNonDigit(raw: string, dtype: string, i: nat)
    requires KindOf(dtype).Integer?
    requires i < |raw| && !IsDigit(raw[i])
    requires i > 0 || (raw[0] != '+' && raw[0] != '-')
    ensures Coerce(raw, dtype) == Int(-1)
  {
    if |raw| > 0 && (raw[0] == '+' || raw[0] == '-') {
      assert raw[1..][i - 1] == raw[i];
    }
  }

  /** A character that is neither a digit, a separator nor a leading sign
      makes a float field unparseable, and it is stored as not-a-number. */
  lemma FloatRejectsStrayCharacter(raw: string, dtype: string, i: nat)
    requires KindOf(dtype).Float?
    requires i < |raw| && !IsDigit(raw[i]) && raw[i] != ',' && raw[i] != '.'
    requires i > 0 || (raw[0] != '+' && raw[0] != '-')
    ensures Coerce(raw, dtype) == NaN
  {
    var s := ReplaceCommas(raw);
    assert s[i] == raw[i];
    var body := if s[0] == '+' || s[0] == '-' then s[1..] else s;
    var j := if s[0] == '+' || s[0] == '-' then i - 1 else i;
    assert body[j] == raw[i];
    var k := IndexOf(body, '.');
    if j < k {
      assert body[..k][j] == raw[i];
    } else {
      assert j > k && body[k + 1..][j - k - 1] == raw[i];
    }
  }
}
