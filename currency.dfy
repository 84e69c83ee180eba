/** CurrencyHelper: dual BGN/EUR amounts around the euro acceptance date.
    An amount is in BGN when its date is before the acceptance date and in EUR
    from that date on. The configured rate is BGN per EUR. The process-wide
    configuration (rate, acceptance date, currency-mode text) is an explicit
    Settings value and the clock an explicit `now`. */
module Currency {
  import opened Text
  import Linq

  /** The three named members of the enum, and any other value of its underlying int,
      which Enum.TryParse produces from a number that names no member. */
  datatype CurrencyMode = BGN | Dual | EUR | Undefined(value: int)

  /** Decimal.Parse of the configured rate. A zero rate makes every BGN-to-EUR
      division throw DivideByZeroException, so the configuration excludes it. */
  type Rate = r: real | r != 0.0 witness 1.0

  datatype Settings = Settings(bgnToEuroRate: Rate, euroAcceptanceDate: int, currencyModeConfig: string)

  function ModeName(m: CurrencyMode): string
    requires !m.Undefined?
  {
    match m
    case BGN => "BGN"
    case Dual => "Dual"
    case EUR => "EUR"
  }

  /** The enum value with the given underlying int (members are numbered 0, 1, 2). */
  function ModeOfValue(n: int): (m: CurrencyMode)
    ensures m.Undefined? <==> !(0 <= n <= 2)
  {
    if n == 0 then BGN else if n == 1 then Dual else if n == 2 then EUR else Undefined(n)
  }

  predicate IsDigit(c: char) { '0' <= c <= '9' }

  predicate AllDigits(d: string) {
    forall i :: 0 <= i < |d| ==> IsDigit(d[i])
  }

  function DigitsValue(d: string): int
    requires AllDigits(d)
  {
    if d == [] then 0 else DigitsValue(d[..|d| - 1]) * 10 + (d[|d| - 1] as int - '0' as int)
  }

  /** Int32.TryParse of a sign-less digit string, negated when a '-' preceded it. */
  function ParseDigits(d: string, negative: bool): Option<int> {
    if d == [] || !AllDigits(d) then None
    else
      var n := if negative then -DigitsValue(d) else DigitsValue(d);
      if -0x8000_0000 <= n < 0x8000_0000 then Some(n) else None
  }

  /** Int32.TryParse: an optional sign, then at least one digit, within the Int32 range. */
  function ParseInt32(t: string): Option<int> {
    if t == [] then None
    else if t[0] == '-' || t[0] == '+' then ParseDigits(t[1..], t[0] == '-')
    else ParseDigits(t, false)
  }

  /** Enum.TryParse<CurrencyMode>(input, ignoreCase: true) after the blank check:
      the trimmed text is a number (its enum value, named or not) or a member name
      in any letter case; anything else fails and leaves the default Dual. */
  function ParseCurrencyMode(input: string): CurrencyMode {
    if IsBlank(input) then Dual
    else
      var t := Trim(input);
      match ParseInt32(t)
      case Some(n) => ModeOfValue(n)
      case None =>
        if EqualsIgnoreCase(t, "BGN") then BGN
        else if EqualsIgnoreCase(t, "Dual") then Dual
        else if EqualsIgnoreCase(t, "EUR") then EUR
        else Dual
  }

  /** Each mode is recognised from its own name, whatever its letter case and
      whatever whitespace surrounds it. */
  lemma ParseCurrencyModeRecognisesNames(input: string, m: CurrencyMode)
    requires !m.Undefined? && EqualsIgnoreCase(Trim(input), ModeName(m))
    ensures ParseCurrencyMode(input) == m
  {
    var t := Trim(input);
    assert !IsBlank(input) by { assert |t| == |ModeName(m)| > 0; }
    assert UpperChar(t[0]) == UpperChar(ModeName(m)[0]);
    assert 'A' <= UpperChar(t[0]) <= 'Z' by {
      match m
      case BGN => assert ModeName(m)[0] == 'B';
      case Dual => assert ModeName(m)[0] == 'D';
      case EUR => assert ModeName(m)[0] == 'E';
    }
    LetterIsNotNumber(t);
    match m
    case BGN =>
    case Dual =>
      assert !EqualsIgnoreCase(t, "BGN") by { assert |t| == 4; }
    case EUR =>
      assert !EqualsIgnoreCase(t, "BGN") by { assert UpperChar(t[0]) == 'E'; }
      assert !EqualsIgnoreCase(t, "Dual") by { assert |t| == 3; }
  }

  /** A text that starts with a letter is not a number. */
  lemma LetterIsNotNumber(t: string)
    requires t != [] && 'A' <= UpperChar(t[0]) <= 'Z'
    ensures ParseInt32(t) == None
  {
  }

  /** A named mode other than Dual is chosen only when the trimmed input spells its
      name; a blank input always means Dual. */
  lemma ParseCurrencyModeDefaultsToDual(input: string)
    ensures var m := ParseCurrencyMode(input);
            (m == BGN || m == EUR) ==>
              EqualsIgnoreCase(Trim(input), ModeName(m)) || ParseInt32(Trim(input)) == Some(if m == BGN then 0 else 2)
    ensures IsBlank(input) ==> ParseCurrencyMode(input) == Dual
  {
  }

  /** A number names a member by its position, and any other number that fits an
      Int32 is kept as an undefined mode. */
  lemma ParseCurrencyModeOfNumber(input: string, n: int)
    requires !IsBlank(input) && ParseInt32(Trim(input)) == Some(n)
    ensures ParseCurrencyMode(input) == ModeOfValue(n)
  {
  }

  function Mode(s: Settings): CurrencyMode {
    ParseCurrencyMode(s.currencyModeConfig)
  }

  /** IsEuroTimePeriod: the clock has reached the acceptance date. */
  predicate IsEuroTimePeriod(s: Settings, now: int) {
    now >= s.euroAcceptanceDate
  }

  /** An amount dated on or after the acceptance date is in EUR and is converted to BGN. */
  function GetBgnValue(s: Settings, value: real, createDate: int): (r: real)
    ensures createDate >= s.euroAcceptanceDate ==> r == value * s.bgnToEuroRate
    ensures createDate < s.euroAcceptanceDate ==> r == value
  {
    if createDate >= s.euroAcceptanceDate then value * s.bgnToEuroRate else value
  }

  /** An amount dated before the acceptance date is in BGN and is converted to EUR. */
  function GetEuroValue(s: Settings, value: real, createDate: int): (r: real)
    ensures createDate < s.euroAcceptanceDate ==> r == value / s.bgnToEuroRate
    ensures createDate >= s.euroAcceptanceDate ==> r == value
  {
    if createDate < s.euroAcceptanceDate then value / s.bgnToEuroRate else value
  }

  /** The BGN and EUR views of one amount differ by exactly the rate, on either side of
      the acceptance date. */
  lemma BgnIsEuroTimesRate(s: Settings, value: real, createDate: int)
    ensures GetBgnValue(s, value, createDate) == GetEuroValue(s, value, createDate) * s.bgnToEuroRate
  {
  }

  /** The two-decimal text of the BGN value. Formatter.DecimalToTwoDecimalPlacesFormat
      is not part of this model and is the parameter `fmt`. */
  function GetBgnValueFormated(s: Settings, fmt: real -> string, value: real, createDate: int): string {
    fmt(GetBgnValue(s, value, createDate))
  }

  function GetEuroValueFormated(s: Settings, fmt: real -> string, value: real, createDate: int): string {
    fmt(GetEuroValue(s, value, createDate))
  }

  /** The formatted variants format the converted amount: in the euro period a
      pre-acceptance amount is shown divided by the rate, later amounts as they are,
      and the BGN text is the EUR amount times the rate. */
  lemma FormattedValuesFormatConversions(s: Settings, fmt: real -> string, value: real, createDate: int)
    ensures GetEuroValueFormated(s, fmt, value, createDate)
         == fmt(if createDate < s.euroAcceptanceDate then value / s.bgnToEuroRate else value)
    ensures GetBgnValueFormated(s, fmt, value, createDate)
         == fmt(GetEuroValue(s, value, createDate) * s.bgnToEuroRate)
  {
    BgnIsEuroTimesRate(s, value, createDate);
  }

  function GetCurrencyCode(s: Settings, now: int): string {
    if IsEuroTimePeriod(s, now) then "EUR" else "BGN"
  }

  function GetCurrencyCodeNumber(s: Settings, now: int): string {
    if IsEuroTimePeriod(s, now) then "978" else "975"
  }

  /** The numeric codes of ISO 4217 for the two currencies. */
  const Iso4217Numeric: map<string, string> := map["EUR" := "978", "BGN" := "975"]

  /** The alphabetic and numeric codes always name the same ISO 4217 currency, and it is
      the euro exactly in the euro period. */
  lemma CurrencyCodesAgree(s: Settings, now: int)
    ensures GetCurrencyCode(s, now) in Iso4217Numeric
    ensures Iso4217Numeric[GetCurrencyCode(s, now)] == GetCurrencyCodeNumber(s, now)
    ensures GetCurrencyCode(s, now) == "EUR" <==> now >= s.euroAcceptanceDate
  {
  }

  /** The amount as displayed in a given currency mode: Dual shows both currencies,
      the one of the current period first; EUR shows euros; every other value, BGN
      and the undefined ones, shows leva. */
  function DisplayInMode(m: CurrencyMode, s: Settings, now: int, fmt: real -> string,
                         value: real, createDate: int): string
  {
    match m
    case Dual =>
      if IsEuroTimePeriod(s, now) then
        GetEuroValueFormated(s, fmt, value, createDate) + " € (" + GetBgnValueFormated(s, fmt, value, createDate) + " лв.)"
      else
        GetBgnValueFormated(s, fmt, value, createDate) + " лв. (" + GetEuroValueFormated(s, fmt, value, createDate) + " €)"
    case EUR =>
      GetEuroValueFormated(s, fmt, value, createDate) + " €"
    case _ =>
      GetBgnValueFormated(s, fmt, value, createDate) + " лв."
  }

  /** GetValueForDisplayUsingCurrencyMode: the display in the configured mode. */
  function GetValueForDisplayUsingCurrencyMode(s: Settings, now: int, fmt: real -> string,
                                               value: real, createDate: int): string
  {
    DisplayInMode(Mode(s), s, now, fmt, value, createDate)
  }

  /** Dual mode shows the single-currency display of the current period's currency,
      followed in parentheses by that of the other currency; the single-currency modes
      show their own currency's converted amount and symbol. */
  lemma DualDisplayCombinesSingleDisplays(s: Settings, now: int, fmt: real -> string, value: real, createDate: int)
    ensures var eur := DisplayInMode(EUR, s, now, fmt, value, createDate);
            var bgn := DisplayInMode(BGN, s, now, fmt, value, createDate);
            && eur == fmt(GetEuroValue(s, value, createDate)) + " €"
            && bgn == fmt(GetBgnValue(s, value, createDate)) + " лв."
            && DisplayInMode(Dual, s, now, fmt, value, createDate)
               == if IsEuroTimePeriod(s, now) then eur + " (" + bgn + ")" else bgn + " (" + eur + ")"
  {
    var e := fmt(GetEuroValue(s, value, createDate));
    var b := fmt(GetBgnValue(s, value, createDate));
    assert (e + " €") + " (" + (b + " лв.") + ")" == e + " € (" + b + " лв.)";
    assert (b + " лв.") + " (" + (e + " €") + ")" == b + " лв. (" + e + " €)";
  }

  /** Configuring "EUR" or "BGN", in any letter case and with surrounding whitespace,
      selects that currency's display. */
  lemma ConfiguredModeSelectsDisplay(s: Settings, now: int, fmt: real -> string, value: real, createDate: int)
    requires EqualsIgnoreCase(Trim(s.currencyModeConfig), "EUR") || EqualsIgnoreCase(Trim(s.currencyModeConfig), "BGN")
    ensures GetValueForDisplayUsingCurrencyMode(s, now, fmt, value, createDate)
         == if EqualsIgnoreCase(Trim(s.currencyModeConfig), "EUR")
            then fmt(GetEuroValue(s, value, createDate)) + " €"
            else fmt(GetBgnValue(s, value, createDate)) + " лв."
  {
    if EqualsIgnoreCase(Trim(s.currencyModeConfig), "EUR") {
      ParseCurrencyModeRecognisesNames(s.currencyModeConfig, EUR);
    } else {
      ParseCurrencyModeRecognisesNames(s.currencyModeConfig, BGN);
    }
  }

  // ---------------------------------------------------------------------------
  // The TotalInEuro getters of the admin view models

  /** The sum of the euro values of the rows, each converted by its own date. */
  function SumOfEuroValues<T>(s: Settings, rows: seq<T>, amount: T -> real, date: T -> int): real {
    Linq.Sum(rows, (r: T) => GetEuroValue(s, amount(r), date(r)))
  }

  /** One more row adds its own euro value. */
  lemma SumOfEuroValuesStep<T>(s: Settings, rows: seq<T>, i: int, amount: T -> real, date: T -> int)
    requires 0 <= i < |rows|
    ensures SumOfEuroValues(s, rows[..i + 1], amount, date)
         == SumOfEuroValues(s, rows[..i], amount, date) + GetEuroValue(s, amount(rows[i]), date(rows[i]))
  {
    assert rows[..i + 1][..i] == rows[..i];
  }

  /** When every row is dated on or after the acceptance date, the euro total is the
      plain sum of the amounts. */
  lemma {:induction false} EuroTotalOfEuroRows<T>(s: Settings, rows: seq<T>, amount: T -> real, date: T -> int)
    requires forall i :: 0 <= i < |rows| ==> date(rows[i]) >= s.euroAcceptanceDate
    ensures SumOfEuroValues(s, rows, amount, date) == Linq.Sum(rows, amount)
  {
    if rows != [] {
      EuroTotalOfEuroRows(s, rows[..|rows| - 1], amount, date);
    }
  }

  /** Each row contributes its own euro value: a row dated before the acceptance date
      adds its amount divided by the rate, wherever it stands. */
  lemma EuroTotalContribution<T>(s: Settings, before: seq<T>, x: T, after: seq<T>,
                                 amount: T -> real, date: T -> int)
    ensures SumOfEuroValues(s, before + [x] + after, amount, date)
         == SumOfEuroValues(s, before, amount, date) + GetEuroValue(s, amount(x), date(x))
            + SumOfEuroValues(s, after, amount, date)
    ensures date(x) < s.euroAcceptanceDate ==>
      SumOfEuroValues(s, before + [x] + after, amount, date)
      == SumOfEuroValues(s, before, amount, date) + amount(x) / s.bgnToEuroRate
         + SumOfEuroValues(s, after, amount, date)
  {
    var f := (r: T) => GetEuroValue(s, amount(r), date(r));
    Linq.SumAppend(before + [x], after, f);
    Linq.SumAppend(before, [x], f);
    assert Linq.Sum([x], f) == f(x) by {
      assert [x][..0] == [];
    }
  }
}
