/**
  The `PatientInfo` record and its `age` validator (Medical_reports.py:17-29).

  The validator runs before the record's `int` coercion: for a string it
  searches for the leftmost run of decimal digits (`re.search(r'\d+', value)`)
  and returns `int` of that run; with no digit it returns the string
  unchanged, and the `int` coercion that follows rejects it. Extraction only
  ever hands strings to the record, so the model takes the age as a string.
  Digits are '0'..'9' (Python's `\d` also matches other Unicode digits).
 */
module Validation {
  import opened Wrappers

  predicate IsDigit(c: char) {
    '0' <= c <= '9'
  }

  predicate AllDigits(s: string) {
    forall k :: 0 <= k < |s| ==> IsDigit(s[k])
  }

  predicate NoDigit(s: string) {
    forall k :: 0 <= k < |s| ==> !IsDigit(s[k])
  }

  /** `10` to the power `n`. */
  function Pow10(n: nat): nat {
    if n == 0 then 1 else 10 * Pow10(n - 1)
  }

  /** Value of a string of decimal digits, most significant first, as `int()`
      reads it (leading zeros allowed); `n` digits hold less than `10^n`. */
  function DecimalValue(d: string): (v: nat)
    requires AllDigits(d)
    ensures v < Pow10(|d|)
  {
    if d == [] then 0
    else 10 * DecimalValue(d[..|d| - 1]) + (d[|d| - 1] as int - '0' as int)
  }

  /** `str(n)` for a natural number: its decimal digits without leading zeros. */
  function DecimalString(n: nat): (d: string)
    ensures d != [] && AllDigits(d)
    ensures |d| > 1 ==> d[0] != '0'
  {
    var last := ('0' as int + n % 10) as char;
    if n < 10 then [last] else DecimalString(n / 10) + [last]
  }

  /** Reading back the digits of `str(n)` gives `n`. */
  lemma {:induction false} DecimalRoundTrip(n: nat)
    ensures DecimalValue(DecimalString(n)) == n
  {
    if n >= 10 {
      DecimalRoundTrip(n / 10);
      var d := DecimalString(n);
      assert d[..|d| - 1] == DecimalString(n / 10);
    }
  }

  /** A leading zero does not change the value: `int("007") == int("7")`. */
  lemma {:induction false} DecimalValueLeadingZero(d: string)
    requires AllDigits(d)
    ensures AllDigits("0" + d) && DecimalValue("0" + d) == DecimalValue(d)
  {
    var z := "0" + d;
    if d != [] {
      assert z[..|z| - 1] == "0" + d[..|d| - 1];
      assert z[|z| - 1] == d[|d| - 1];
      DecimalValueLeadingZero(d[..|d| - 1]);
    } else {
      assert z[..0] == [];
    }
  }

  /** A half-open range `[start, end)` of positions in a string. */
  datatype Span = Span(start: nat, end: nat)

  /** The length of the run of digits at the front of `s`. */
  function DigitRunLength(s: string): (n: nat)
    ensures n <= |s| && AllDigits(s[..n])
    ensures n == |s| || !IsDigit(s[n])
  {
    if s != [] && IsDigit(s[0]) then 1 + DigitRunLength(s[1..]) else 0
  }

  /** What `re.search(r'\d+', s)` matches: the leftmost maximal run of digits,
      or None when `s` holds no digit. */
  function DigitSearch(s: string): (r: Option<Span>)
    ensures r.None? <==> NoDigit(s)
    ensures r.Some? ==> IsLeftmostRun(s, r.value)
  {
    if s == [] then None
    else if IsDigit(s[0]) then Some(Span(0, DigitRunLength(s)))
    else match DigitSearch(s[1..])
      case None => None
      case Some(sp) =>
        assert s[..sp.start + 1] == [s[0]] + s[1..][..sp.start];
        assert s[1..][sp.start..sp.end] == s[sp.start + 1..sp.end + 1];
        Some(Span(sp.start + 1, sp.end + 1))
  }

  /** `sp` is a non-empty run of digits with no digit before it that cannot be
      extended to the right. */
  predicate IsLeftmostRun(s: string, sp: Span) {
    sp.start < sp.end <= |s|
    && NoDigit(s[..sp.start])
    && AllDigits(s[sp.start..sp.end])
    && (sp.end == |s| || !IsDigit(s[sp.end]))
  }

  /** There is only one leftmost maximal run, so the search finds exactly the
      span that has those properties. */
  lemma LeftmostRunUnique(s: string, sp: Span)
    requires IsLeftmostRun(s, sp)
    ensures DigitSearch(s) == Some(sp)
  {
    DigitsAt(s, sp);
    assert !NoDigit(s) by {
      assert IsDigit(s[sp.start]);
    }
    var q := DigitSearch(s).value;
    DigitsAt(s, q);
    assert IsDigit(s[sp.start]) && IsDigit(s[q.start]);
  }

  /** What `IsLeftmostRun` says about the characters of `s` themselves. */
  lemma DigitsAt(s: string, sp: Span)
    requires IsLeftmostRun(s, sp)
    ensures forall k :: 0 <= k < sp.start ==> !IsDigit(s[k])
    ensures forall k :: sp.start <= k < sp.end ==> IsDigit(s[k])
  {
    assert forall k :: 0 <= k < sp.start ==> s[k] == s[..sp.start][k];
    assert forall k :: sp.start <= k < sp.end ==> s[k] == s[sp.start..sp.end][k - sp.start];
  }

  /** Why the age is refused: no digit at all, so the string reaches the
      `int` coercion unchanged; or a digit run longer than `int()` accepts. */
  datatype ValidationError = AgeNotInteger(raw: string) | AgeTooManyDigits(raw: string)

  /** The most digits `int()` converts from a string: the default of
      `sys.get_int_max_str_digits()`. Longer runs raise `ValueError`, which the
      validator passes on as a validation error. */
  const IntMaxStrDigits: nat := 4300

  /** The leftmost digit run of `raw` is longer than `int()` accepts. */
  predicate TooManyDigits(raw: string) {
    match DigitSearch(raw)
      case None => false
      case Some(sp) => sp.end - sp.start > IntMaxStrDigits
  }

  /** `validate_age` followed by the `int` coercion of the field: the value of
      the leftmost digit run, or a validation error when there is none or it is
      too long for `int()`. */
  function CoerceAge(raw: string): (r: Result<int, ValidationError>)
    ensures r.Err? <==> NoDigit(raw) || TooManyDigits(raw)
    ensures r.Err? ==> r.error == if NoDigit(raw) then AgeNotInteger(raw) else AgeTooManyDigits(raw)
    ensures r.Ok? ==> r.value >= 0
    ensures r.Ok? ==>
      exists sp :: IsLeftmostRun(raw, sp) && sp.end - sp.start <= IntMaxStrDigits && r.value == DecimalValue(raw[sp.start..sp.end])
  {
    match DigitSearch(raw)
      case None => Err(AgeNotInteger(raw))
      case Some(sp) =>
        if sp.end - sp.start > IntMaxStrDigits then Err(AgeTooManyDigits(raw))
        else Ok(DecimalValue(raw[sp.start..sp.end]))
  }

  /** Whatever the text around it, the age is the value of the leftmost
      maximal digit run, leading zeros included, unless that run is too long
      for `int()`. */
  lemma CoerceRun(s: string, sp: Span)
    requires IsLeftmostRun(s, sp)
    ensures CoerceAge(s) == if sp.end - sp.start > IntMaxStrDigits then Err(AgeTooManyDigits(s))
      else Ok(DecimalValue(s[sp.start..sp.end]))
  {
    LeftmostRunUnique(s, sp);
  }

  /** A string of more digits than `int()` accepts is refused as an age. */
  lemma CoerceOverLimit(d: string)
    requires AllDigits(d) && |d| > IntMaxStrDigits
    ensures CoerceAge(d) == Err(AgeTooManyDigits(d))
  {
    assert d[..0] == [] && d[0..|d|] == d;
    CoerceRun(d, Span(0, |d|));
  }

  /** A number written in decimal, with no digit before it and a non-digit (or
      nothing) after it, is the age read back, as long as `int()` accepts that
      many digits. */
  lemma CoerceEmbeddedNumber(before: string, n: nat, after: string)
    requires NoDigit(before)
    requires after == [] || !IsDigit(after[0])
    ensures var s := before + DecimalString(n) + after;
      CoerceAge(s) == if |DecimalString(n)| > IntMaxStrDigits then Err(AgeTooManyDigits(s)) else Ok(n)
  {
    var d := DecimalString(n);
    var s := before + d + after;
    var sp := Span(|before|, |before| + |d|);
    assert s[..sp.start] == before;
    assert s[sp.start..sp.end] == d;
    LeftmostRunUnique(s, sp);
    DecimalRoundTrip(n);
  }

  /** The age written by `str(n)` is read back as `n`, as long as `int()`
      accepts that many digits. */
  lemma CoerceDecimal(n: nat)
    ensures CoerceAge(DecimalString(n)) ==
      if |DecimalString(n)| > IntMaxStrDigits then Err(AgeTooManyDigits(DecimalString(n))) else Ok(n)
  {
    CoerceEmbeddedNumber("", n, "");
    assert "" + DecimalString(n) + "" == DecimalString(n);
  }

  /** "52 years" is read as 52. */
  lemma CoerceAgeWithUnit()
    ensures CoerceAge("52 years") == Ok(52)
  {
    assert DecimalString(52) == "52";
    assert "" + "52" + " years" == "52 years";
    CoerceEmbeddedNumber("", 52, " years");
  }

  /** "12.5" is truncated to 12: the run stops at the decimal point. */
  lemma CoerceAgeFraction()
    ensures CoerceAge("12.5") == Ok(12)
  {
    assert DecimalString(12) == "12";
    assert "" + "12" + ".5" == "12.5";
    CoerceEmbeddedNumber("", 12, ".5");
  }

  /** "-5" is read as 5: the sign is not part of the run. */
  lemma CoerceAgeSign()
    ensures CoerceAge("-5") == Ok(5)
  {
    assert DecimalString(5) == "5";
    assert "-" + "5" + "" == "-5";
    CoerceEmbeddedNumber("-", 5, "");
  }

  /** "007" is read as 7: leading zeros belong to the run and do not count. */
  lemma CoerceAgeLeadingZeros()
    ensures CoerceAge("007") == Ok(7)
  {
    LeftmostRunUnique("007", Span(0, 3));
    assert "007"[0..3] == "007";
    assert "007"[..2] == "00" && "00"[..1] == "0" && "0"[..0] == "";
    assert DecimalValue("0") == 0;
    assert DecimalValue("00") == 0;
  }

  /** "unknown" has no digit, so the record is refused. */
  lemma CoerceAgeNoDigit()
    ensures CoerceAge("unknown") == Err(AgeNotInteger("unknown"))
  {
  }

  /** The validated record: `PatientInfo` with an integer `age`. */
  datatype PatientInfo = PatientInfo(name: string, sex: string, age: int, summary: string)

  /** `PatientInfo(**fields)`: name, sex and summary are taken as they are, the
      age is coerced; the record is refused exactly when the age has no digit
      or its leftmost digit run is too long for `int()`. */
  function BuildRecord(name: string, sex: string, age: string, summary: string): (r: Result<PatientInfo, ValidationError>)
    ensures r.Err? <==> NoDigit(age) || TooManyDigits(age)
    ensures r.Ok? ==> r.value.name == name && r.value.sex == sex && r.value.summary == summary
    ensures r.Ok? ==> r.value.age >= 0 && CoerceAge(age) == Ok(r.value.age)
  {
    match CoerceAge(age)
      case Err(e) => Err(e)
      case Ok(n) => Ok(PatientInfo(name, sex, n, summary))
  }
}
