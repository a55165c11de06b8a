/** The form validators of the modular front end: the single-value checks
    (`isRequired`, `isNumber`, `isPositive`, `isValidDate`, `isFutureDate`)
    and `validateForm`, which runs a list of rules per field and keeps the
    first message that fires.

    A form value is a `Value`, the handful of JavaScript values a form can
    hold. Number reading is floating point and enters as a parameter
    (`NumberReading`); the clock enters as today's civil date. A call that
    would throw in the browser answers `Err`. */
module Validation {
  import opened Wrappers
  import opened Gregorian
  import Decimal
  import Text
  import DateUtils

  const TYPE_ERROR := "TypeError"

  const MSG_REQUIRED := "Campo obrigatório"
  const MSG_NUMBER := "Deve ser um número válido"
  const MSG_POSITIVE := "Deve ser maior que zero"
  const MSG_DATE := "Data inválida"
  const MSG_FUTURE := "A data deve ser futura"
  const MSG_CUSTOM := "Valor inválido"

  /** The JavaScript values a form field can carry. */
  datatype Value = Undefined | Null | Bool(b: bool) | Num(x: real) | NaN | Str(s: string)

  /** JavaScript truthiness of a value. */
  predicate Truthy(v: Value) {
    match v
    case Undefined => false
    case Null => false
    case Bool(b) => b
    case Num(x) => x != 0.0
    case NaN => false
    case Str(s) => s != ""
  }

  /** How the browser reads a decimal string: `parseFloat` (`None` is NaN)
      and the global `isFinite`, which converts the whole string first. */
  datatype NumberReading = NumberReading(parseFloat: string -> Option<real>, isFinite: string -> bool)

  // ---------------------------------------------------------------------
  // Single-value checks
  // ---------------------------------------------------------------------

  /** `isRequired`: neither `null` nor `undefined`, and not blank once
      converted to text. Only a string can print as blank. */
  function IsRequired(v: Value): (r: bool)
    ensures (v.Undefined? || v.Null?) ==> !r
    ensures v.Str? ==> (r <==> exists i :: 0 <= i < |v.s| && !Decimal.IsSpace(v.s[i]))
    ensures (v.Bool? || v.Num? || v.NaN?) ==> r
  {
    match v
    case Undefined => false
    case Null => false
    case Str(s) =>
      Text.TrimEmptyIffBlank(s);
      Text.Trim(s) != ""
    case _ => true
  }

  /** `s` without any occurrence of `c` (`replace(/c/g, '')`). */
  function RemoveAll(s: string, c: char): (r: string)
    ensures c !in r
    ensures |r| <= |s|
    ensures forall x :: x in r <==> x in s && x != c
  {
    if |s| == 0 then ""
    else if s[0] == c then RemoveAll(s[1..], c)
    else [s[0]] + RemoveAll(s[1..], c)
  }

  /** `s` with its first `a` turned into `b` (`replace(a, b)` with a string
      pattern). */
  function ReplaceFirst(s: string, a: char, b: char): (r: string)
    ensures |r| == |s|
    ensures a !in s ==> r == s
  {
    if |s| == 0 then ""
    else if s[0] == a then [b] + s[1..]
    else [s[0]] + ReplaceFirst(s[1..], a, b)
  }

  /** Where the first `a` of `s` sits. */
  function FirstIndex(s: string, a: char): (k: nat)
    requires a in s
    ensures k < |s| && s[k] == a
    ensures forall j :: 0 <= j < k ==> s[j] != a
  {
    if s[0] == a then 0 else 1 + FirstIndex(s[1..], a)
  }

  /** Only the first occurrence changes: everything before it is kept, and
      so is everything after it. */
  lemma {:induction false} ReplaceFirstAt(s: string, a: char, b: char)
    requires a in s
    ensures ReplaceFirst(s, a, b) == s[..FirstIndex(s, a)] + [b] + s[FirstIndex(s, a) + 1..]
  {
    if s[0] == a {
      assert s[..0] == [];
    } else {
      var t := s[1..];
      assert a in t;
      ReplaceFirstAt(t, a, b);
      var k := FirstIndex(t, a);
      var head := [s[0]] + t[..k];
      assert head == s[..k + 1];
      assert t[k + 1..] == s[k + 2..];
      assert ReplaceFirst(s, a, b) == [s[0]] + (t[..k] + [b] + t[k + 1..]);
      assert [s[0]] + (t[..k] + [b] + t[k + 1..]) == head + [b] + t[k + 1..];
    }
  }

  /** The Brazilian number format read as the English one: thousands dots
      dropped, then the (first) decimal comma made a point. The result
      has one point when the input had a comma, and none otherwise. */
  function Normalize(s: string): (r: string)
    ensures multiset(r)['.'] == if ',' in s then 1 else 0
  {
    var digits := RemoveAll(s, '.');
    OnePoint(digits);
    ReplaceFirst(digits, ',', '.')
  }

  /** Turning the first comma of a point-free string into a point leaves
      one point when there was a comma and none otherwise. */
  lemma {:induction false} OnePoint(d: string)
    requires '.' !in d
    ensures multiset(ReplaceFirst(d, ',', '.'))['.'] == if ',' in d then 1 else 0
  {
    if |d| > 0 {
      assert d == [d[0]] + d[1..];
      assert '.' !in d[1..];
      if d[0] == ',' {
        assert multiset(d[1..])['.'] == 0;
      } else {
        OnePoint(d[1..]);
        assert ',' in d <==> ',' in d[1..];
      }
    }
  }

  /** A number written with thousands dots and a decimal comma normalizes to
      the digits joined by one point. */
  lemma NormalizeBrazilian(thousands: string, units: string, cents: string)
    requires Decimal.AllDigits(thousands) && Decimal.AllDigits(units) && Decimal.AllDigits(cents)
    ensures Normalize(thousands + "." + units + "," + cents) == thousands + units + "." + cents
  {
    DigitsKept(thousands, '.');
    DigitsKept(units, '.');
    DigitsKept(cents, '.');
    RemoveAllConcat(thousands + "." + units + ",", cents, '.');
    RemoveAllConcat(thousands + "." + units, ",", '.');
    RemoveAllConcat(thousands + ".", units, '.');
    RemoveAllConcat(thousands, ".", '.');
    assert RemoveAll(".", '.') == "" && RemoveAll(",", '.') == ",";
    assert thousands + "" == thousands;
    NoCommaInDigits(thousands);
    NoCommaInDigits(units);
    ReplaceFirstAfter(thousands + units, cents);
  }

  /** The first `,` of `a + "," + b` is the one after `a` when `a` has none. */
  lemma {:induction false} ReplaceFirstAfter(a: string, b: string)
    requires ',' !in a
    ensures ReplaceFirst(a + "," + b, ',', '.') == a + "." + b
  {
    if |a| > 0 {
      assert (a + "," + b)[1..] == a[1..] + "," + b;
      assert ',' !in a[1..];
      ReplaceFirstAfter(a[1..], b);
    } else {
      assert a + "," + b == "," + b;
    }
  }

  lemma NoCommaInDigits(s: string)
    requires Decimal.AllDigits(s)
    ensures ',' !in s
  {
    assert forall i :: 0 <= i < |s| ==> Decimal.IsDigit(s[i]);
  }

  lemma DigitsKept(s: string, c: char)
    requires Decimal.AllDigits(s) && c == '.'
    ensures RemoveAll(s, c) == s
  {
    assert forall i :: 0 <= i < |s| ==> Decimal.IsDigit(s[i]);
    RemoveAllAbsent(s, c);
  }

  lemma {:induction false} RemoveAllAbsent(s: string, c: char)
    requires c !in s
    ensures RemoveAll(s, c) == s
  {
    if |s| > 0 {
      assert c !in s[1..];
      RemoveAllAbsent(s[1..], c);
    }
  }

  lemma {:induction false} RemoveAllConcat(a: string, b: string, c: char)
    ensures RemoveAll(a + b, c) == RemoveAll(a, c) + RemoveAll(b, c)
  {
    if |a| > 0 {
      assert (a + b)[1..] == a[1..] + b;
      RemoveAllConcat(a[1..], b, c);
    } else {
      assert a + b == b;
    }
  }

  /** `isNumber`: a number that is not NaN, or a string whose normalized
      form `parseFloat` reads and `isFinite` accepts. Anything else is not
      a number. */
  function IsNumber(v: Value, nums: NumberReading): (r: bool)
    ensures v.Num? ==> r
    ensures (v.NaN? || v.Undefined? || v.Null? || v.Bool?) ==> !r
    ensures v.Str? ==> (r <==> nums.parseFloat(Normalize(v.s)).Some? && nums.isFinite(Normalize(v.s)))
  {
    match v
    case Num(_) => true
    case NaN => false
    case Str(s) =>
      var n := Normalize(s);
      nums.parseFloat(n).Some? && nums.isFinite(n)
    case _ => false
  }

  /** `isPositive`: a number, and above zero once read. */
  function IsPositive(v: Value, nums: NumberReading): (r: bool)
    ensures r ==> IsNumber(v, nums)
    ensures v.Num? ==> (r <==> v.x > 0.0)
    ensures v.Str? ==> (r <==> IsNumber(v, nums) && nums.parseFloat(Normalize(v.s)).value > 0.0)
  {
    if !IsNumber(v, nums) then false
    else match v
      case Str(s) => nums.parseFloat(Normalize(s)).value > 0.0
      case Num(x) => x > 0.0
      case _ => false
  }

  // ---------------------------------------------------------------------
  // Dates
  // ---------------------------------------------------------------------

  /** The pattern `^(\d{2})\/(\d{2})\/(\d{4})$`. */
  predicate DateShape(s: string) {
    |s| == 10 && s[2] == '/' && s[5] == '/'
    && Decimal.AllDigits(s[..2]) && Decimal.AllDigits(s[3..5]) && Decimal.AllDigits(s[6..])
  }

  function DayOf(s: string): nat
    requires DateShape(s)
  {
    Decimal.DigitsValue(s[..2])
  }

  function MonthOf(s: string): nat
    requires DateShape(s)
  {
    Decimal.DigitsValue(s[3..5])
  }

  function YearOf(s: string): nat
    requires DateShape(s)
  {
    Decimal.DigitsValue(s[6..])
  }

  /** `new Date(year, month - 1, day)` gives back the same day, month and
      full year. */
  predicate SameComponents(year: int, month: int, day: int) {
    var date := DateUtils.NewDate(year, month, day);
    date.day == day && date.month - 1 == month - 1 && date.year == year
  }

  /** `isValidDate`: a falsy value is no date; a truthy value that is not a
      string has no `match` and throws; a string must have the shape and
      survive the round trip through `new Date`. */
  function IsValidDate(v: Value): (r: Result<bool>)
    ensures r.Err? <==> Truthy(v) && !v.Str?
  {
    if !Truthy(v) then Ok(false)
    else if !v.Str? then Err(TYPE_ERROR)
    else if !DateShape(v.s) then Ok(false)
    else Ok(SameComponents(YearOf(v.s), MonthOf(v.s), DayOf(v.s)))
  }

  /** A two-digit year is read as 19xx, so the year never comes back. */
  lemma TwoDigitYearMoves(y: int, monthIndex: int, day: int)
    requires 0 <= y <= 99 && -1 <= monthIndex && 0 <= day
    ensures JsDate(y, monthIndex, day).year != y
  {
    var r := JsDate(y, monthIndex, day);
    var first := Date(JsFullYear(y) + monthIndex / 12, monthIndex % 12 + 1, 1);
    assert first.year >= 1899 + y;
    DaysBeforeYearMono(1899 + y, first.year);
    assert DayNumber(r) >= DaysBeforeYear(1899 + y) - 1;
    DayNumberWithinYear(r);
    if r.year == y {
      DaysBeforeYearMono(y + 1, 1899 + y);
      assert false;
    }
  }

  /** The round trip through `new Date` succeeds exactly for real calendar
      days of the years 100 on. */
  lemma SameComponentsIff(year: int, month: int, day: int)
    requires 0 <= year && 0 <= month && 0 <= day
    ensures SameComponents(year, month, day) <==> year >= 100 && Valid(Date(year, month, day))
  {
    var date := DateUtils.NewDate(year, month, day);
    if year >= 100 && Valid(Date(year, month, day)) {
      JsDateInRange(year, month - 1, day);
    } else if year <= 99 {
      TwoDigitYearMoves(year, month - 1, day);
    }
  }

  /** `isValidDate` on a string: the shape, a real calendar day, and a year
      from 100 on. "29/02/2023" and "31/04/2024" are refused, "29/02/2024"
      is accepted, and a year written 0000..0099 is always refused. */
  lemma IsValidDateIff(s: string)
    ensures IsValidDate(Str(s)) == Ok(DateShape(s) && YearOf(s) >= 100 && Valid(Date(YearOf(s), MonthOf(s), DayOf(s))))
  {
    if DateShape(s) {
      SameComponentsIff(YearOf(s), MonthOf(s), DayOf(s));
    }
  }

  /** Every date of the years 1000..9999 written as the application writes
      it is accepted. */
  lemma AcceptsWrittenDates(d: Date)
    requires Valid(d) && 1000 <= d.year <= 9999
    ensures IsValidDate(Str(DateUtils.BrazilianDate(d))) == Ok(true)
  {
    var dd := Decimal.TwoDigits(d.day);
    var mm := Decimal.TwoDigits(d.month);
    var yy := Decimal.NatToString(d.year);
    Decimal.NatToStringLength(d.year);
    var s := DateUtils.BrazilianDate(d);
    assert s == dd + "/" + mm + "/" + yy;
    assert s[..2] == dd && s[3..5] == mm && s[6..] == yy;
    assert DateShape(s);
    IsValidDateIff(s);
  }

  /** `isFutureDate`: a valid date, re-read by splitting on '/', that falls
      strictly after today (both taken at midnight). */
  function IsFutureDate(v: Value, today: Date): (r: Result<bool>)
    requires Valid(today)
    ensures r.Err? <==> IsValidDate(v).Err?
    ensures r == Ok(true) ==> IsValidDate(v) == Ok(true)
  {
    match IsValidDate(v)
    case Err(e) => Err(e)
    case Ok(valid) =>
      if !valid then Ok(false)
      else match DateUtils.ParseBrazilianDate(v.s)
        case Parsed(input) => Ok(DayNumber(today) < DayNumber(input))
        case _ => Ok(false)
  }

  /** A valid date string is read back by `split('/')` and `parseInt` as
      the same date. */
  lemma ParseValidDate(s: string)
    requires DateShape(s) && YearOf(s) >= 100 && Valid(Date(YearOf(s), MonthOf(s), DayOf(s)))
    ensures DateUtils.ParseBrazilianDate(s) == DateUtils.Parsed(Date(YearOf(s), MonthOf(s), DayOf(s)))
  {
    assert s == s[..2] + "/" + s[3..5] + "/" + s[6..];
    DateUtils.ParseDigitParts(s[..2], s[3..5], s[6..]);
    JsDateInRange(YearOf(s), MonthOf(s) - 1, DayOf(s));
    YearBelowTenThousand(s);
    YearsInTimeRange(Date(YearOf(s), MonthOf(s), DayOf(s)));
  }

  /** Four digits spell at most 9999, well within the range of a `Date`. */
  lemma YearBelowTenThousand(s: string)
    requires DateShape(s)
    ensures YearOf(s) <= 9999
  {
    var y := s[6..];
    assert y[..1][..0] == [] && y[..2][..1] == y[..1] && y[..3][..2] == y[..2] && y[..3] == y[..|y| - 1];
    assert Decimal.DigitsValue(y[..1]) <= 9;
    assert Decimal.DigitsValue(y[..2]) <= 99;
    assert Decimal.DigitsValue(y[..3]) <= 999;
  }

  /** A string is a future date exactly when it is a valid date strictly
      after today in calendar order. */
  lemma IsFutureDateIff(s: string, today: Date)
    requires Valid(today)
    ensures IsFutureDate(Str(s), today)
      == Ok(DateShape(s) && YearOf(s) >= 100 && Valid(Date(YearOf(s), MonthOf(s), DayOf(s)))
            && Before(today, Date(YearOf(s), MonthOf(s), DayOf(s))))
  {
    IsValidDateIff(s);
    if DateShape(s) && YearOf(s) >= 100 && Valid(Date(YearOf(s), MonthOf(s), DayOf(s))) {
      var d := Date(YearOf(s), MonthOf(s), DayOf(s));
      ParseValidDate(s);
      DayNumberOrder(today, d);
    }
  }

  // ---------------------------------------------------------------------
  // validateForm
  // ---------------------------------------------------------------------

  datatype RuleKind = Required | IsNumeric | Positive | IsDate | FutureDate | Custom | Unrecognised

  /** One validation rule: its kind, its message ("" when none is given)
      and, for `custom`, the optional predicate over the value and the whole
      form. */
  datatype Rule = Rule(kind: RuleKind, message: string, validate: Option<(Value, Form) -> bool>)

  /** The form data; a missing field reads as `undefined`. */
  type Form = map<string, Value>

  function Lookup(form: Form, field: string): Value {
    if field in form then form[field] else Undefined
  }

  /** What the checks need from the browser. */
  datatype Context = Context(nums: NumberReading, today: Date)

  function DefaultMessage(kind: RuleKind): string {
    match kind
    case Required => MSG_REQUIRED
    case IsNumeric => MSG_NUMBER
    case Positive => MSG_POSITIVE
    case IsDate => MSG_DATE
    case FutureDate => MSG_FUTURE
    case Custom => MSG_CUSTOM
    case Unrecognised => ""
  }

  /** `rule.message || default`. */
  function MessageOf(rule: Rule): (r: string)
    ensures rule.kind != Unrecognised ==> r != ""
  {
    if rule.message != "" then rule.message else DefaultMessage(rule.kind)
  }

  /** Whether the rule flags the value. Every rule but `required` and
      `custom` lets an empty value through; an unknown kind flags nothing. */
  function Fires(rule: Rule, value: Value, form: Form, ctx: Context): (r: Result<bool>)
    requires Valid(ctx.today)
    ensures rule.kind in {IsNumeric, Positive, IsDate, FutureDate} && !IsRequired(value) ==> r == Ok(false)
    ensures rule.kind == Unrecognised ==> r == Ok(false)
    ensures r.Err? ==> rule.kind in {IsDate, FutureDate} && Truthy(value) && !value.Str?
  {
    match rule.kind
    case Required => Ok(!IsRequired(value))
    case IsNumeric => Ok(IsRequired(value) && !IsNumber(value, ctx.nums))
    case Positive => Ok(IsRequired(value) && !IsPositive(value, ctx.nums))
    case IsDate =>
      if !IsRequired(value) then Ok(false)
      else (match IsValidDate(value) case Err(e) => Err(e) case Ok(b) => Ok(!b))
    case FutureDate =>
      if !IsRequired(value) then Ok(false)
      else (match IsFutureDate(value, ctx.today) case Err(e) => Err(e) case Ok(b) => Ok(!b))
    case Custom => Ok(rule.validate.Some? && !rule.validate.value(value, form))
    case Unrecognised => Ok(false)
  }

  /** The inner loop of `validateForm` for one field: the message of the
      first rule that fires (which is truthy, so the loop stops there), or
      none. */
  function FieldError(rules: seq<Rule>, value: Value, form: Form, ctx: Context): (r: Result<Option<string>>)
    requires Valid(ctx.today)
    ensures r == Ok(None) <==> forall k :: 0 <= k < |rules| ==> Fires(rules[k], value, form, ctx) == Ok(false)
    ensures r.Ok? && r.value.Some? ==>
      exists k :: 0 <= k < |rules| && Fires(rules[k], value, form, ctx) == Ok(true)
        && r.value.value == MessageOf(rules[k]) && r.value.value != ""
        && forall j :: 0 <= j < k ==> Fires(rules[j], value, form, ctx) == Ok(false)
    ensures r.Err? ==> exists k :: 0 <= k < |rules| && Fires(rules[k], value, form, ctx).Err?
  {
    if |rules| == 0 then Ok(None)
    else
      match Fires(rules[0], value, form, ctx)
      case Err(e) => Err(e)
      case Ok(fired) =>
        if fired then Ok(Some(MessageOf(rules[0])))
        else
          var rest := FieldError(rules[1..], value, form, ctx);
          FirstFiringShifts(rules, value, form, ctx, rest);
          rest
  }

  /** The first firing rule of the tail is the first of the whole list when
      the head does not fire. */
  lemma FirstFiringShifts(rules: seq<Rule>, value: Value, form: Form, ctx: Context, rest: Result<Option<string>>)
    requires Valid(ctx.today) && |rules| > 0
    requires Fires(rules[0], value, form, ctx) == Ok(false)
    requires rest.Ok? && rest.value.Some? ==>
      exists k :: 0 <= k < |rules[1..]| && Fires(rules[1..][k], value, form, ctx) == Ok(true)
        && rest.value.value == MessageOf(rules[1..][k]) && rest.value.value != ""
        && forall j :: 0 <= j < k ==> Fires(rules[1..][j], value, form, ctx) == Ok(false)
    ensures rest.Ok? && rest.value.Some? ==>
      exists k :: 0 <= k < |rules| && Fires(rules[k], value, form, ctx) == Ok(true)
        && rest.value.value == MessageOf(rules[k]) && rest.value.value != ""
        && forall j :: 0 <= j < k ==> Fires(rules[j], value, form, ctx) == Ok(false)
  {
    if rest.Ok? && rest.value.Some? {
      var t := rules[1..];
      var k :| 0 <= k < |t| && Fires(t[k], value, form, ctx) == Ok(true)
        && rest.value.value == MessageOf(t[k]) && rest.value.value != ""
        && forall j :: 0 <= j < k ==> Fires(t[j], value, form, ctx) == Ok(false);
      assert rules[k + 1] == t[k];
      forall j | 0 <= j < k + 1
        ensures Fires(rules[j], value, form, ctx) == Ok(false)
      {
        if j > 0 { assert rules[j] == t[j - 1]; }
      }
    }
  }

  /** The field names of the rules object are its keys, hence distinct. */
  predicate FieldsDistinct(rules: seq<(string, seq<Rule>)>) {
    forall i, j :: 0 <= i < j < |rules| ==> rules[i].0 != rules[j].0
  }

  function ErrorOf(rules: seq<(string, seq<Rule>)>, i: int, form: Form, ctx: Context): Result<Option<string>>
    requires 0 <= i < |rules| && Valid(ctx.today)
  {
    FieldError(rules[i].1, Lookup(form, rules[i].0), form, ctx)
  }

  /** `validateForm`: the fields in order, each with the message of its
      first firing rule; a throwing check aborts the whole call. */
  function ValidateForm(form: Form, rules: seq<(string, seq<Rule>)>, ctx: Context): (r: Result<map<string, string>>)
    requires Valid(ctx.today)
    ensures r.Err? <==> exists i :: 0 <= i < |rules| && ErrorOf(rules, i, form, ctx).Err?
  {
    if |rules| == 0 then Ok(map[])
    else
      var field := rules[0].0;
      assert forall j :: 0 <= j < |rules| - 1 ==> ErrorOf(rules[1..], j, form, ctx) == ErrorOf(rules, j + 1, form, ctx);
      assert forall i :: 1 <= i < |rules| ==> ErrorOf(rules, i, form, ctx) == ErrorOf(rules[1..], i - 1, form, ctx);
      match FieldError(rules[0].1, Lookup(form, field), form, ctx)
      case Err(e) => assert ErrorOf(rules, 0, form, ctx).Err?; Err(e)
      case Ok(first) =>
        match ValidateForm(form, rules[1..], ctx)
        case Err(e) => Err(e)
        case Ok(rest) => Ok(if first.Some? then rest[field := first.value] else rest)
  }

  /** The errors object has a key for exactly the fields with a firing
      rule. */
  lemma {:induction false} ValidateFormKeys(form: Form, rules: seq<(string, seq<Rule>)>, ctx: Context, errors: map<string, string>)
    requires Valid(ctx.today)
    requires ValidateForm(form, rules, ctx) == Ok(errors)
    ensures forall f :: f in errors <==>
      exists i :: 0 <= i < |rules| && rules[i].0 == f && ErrorOf(rules, i, form, ctx) != Ok(None)
  {
    if |rules| > 0 {
      var tail := rules[1..];
      var first := ErrorOf(rules, 0, form, ctx).value;
      var rest := ValidateForm(form, tail, ctx).value;
      ValidateFormStep(form, rules, ctx);
      ValidateFormKeys(form, tail, ctx, rest);
      forall f
        ensures f in errors <==> exists i :: 0 <= i < |rules| && rules[i].0 == f && ErrorOf(rules, i, form, ctx) != Ok(None)
      {
        if f in errors && !(first.Some? && f == rules[0].0) {
          var i :| 0 <= i < |tail| && tail[i].0 == f && ErrorOf(tail, i, form, ctx) != Ok(None);
          ErrorOfTail(rules, i, form, ctx);
        }
        if exists i :: 0 <= i < |rules| && rules[i].0 == f && ErrorOf(rules, i, form, ctx) != Ok(None) {
          var i :| 0 <= i < |rules| && rules[i].0 == f && ErrorOf(rules, i, form, ctx) != Ok(None);
          if i > 0 {
            ErrorOfTail(rules, i - 1, form, ctx);
          }
        }
      }
    }
  }

  /** One step of `validateForm`: the first field's outcome, then the rest. */
  lemma ValidateFormStep(form: Form, rules: seq<(string, seq<Rule>)>, ctx: Context)
    requires Valid(ctx.today) && |rules| > 0
    requires ValidateForm(form, rules, ctx).Ok?
    ensures ErrorOf(rules, 0, form, ctx).Ok? && ValidateForm(form, rules[1..], ctx).Ok?
    ensures var first := ErrorOf(rules, 0, form, ctx).value;
      var rest := ValidateForm(form, rules[1..], ctx).value;
      ValidateForm(form, rules, ctx).value == if first.Some? then rest[rules[0].0 := first.value] else rest
  {
  }

  lemma ErrorOfTail(rules: seq<(string, seq<Rule>)>, i: int, form: Form, ctx: Context)
    requires Valid(ctx.today) && 0 <= i < |rules| - 1
    ensures rules[1..][i] == rules[i + 1]
    ensures ErrorOf(rules[1..], i, form, ctx) == ErrorOf(rules, i + 1, form, ctx)
  {
  }

  /** With distinct field names, each key holds its field's first message. */
  lemma {:induction false} ValidateFormMessages(form: Form, rules: seq<(string, seq<Rule>)>, ctx: Context, errors: map<string, string>)
    requires Valid(ctx.today)
    requires ValidateForm(form, rules, ctx) == Ok(errors)
    requires FieldsDistinct(rules)
    ensures forall i :: 0 <= i < |rules| && ErrorOf(rules, i, form, ctx) != Ok(None) ==>
      rules[i].0 in errors && errors[rules[i].0] == ErrorOf(rules, i, form, ctx).value.value
  {
    if |rules| > 0 {
      var tail := rules[1..];
      var first := ErrorOf(rules, 0, form, ctx).value;
      var rest := ValidateForm(form, tail, ctx).value;
      assert FieldsDistinct(tail) by {
        forall i, j | 0 <= i < j < |tail|
          ensures tail[i].0 != tail[j].0
        {
          assert tail[i] == rules[i + 1] && tail[j] == rules[j + 1];
        }
      }
      ValidateFormMessages(form, tail, ctx, rest);
      assert errors == if first.Some? then rest[rules[0].0 := first.value] else rest;
      forall i | 0 <= i < |rules| && ErrorOf(rules, i, form, ctx) != Ok(None)
        ensures rules[i].0 in errors && errors[rules[i].0] == ErrorOf(rules, i, form, ctx).value.value
      {
        if i > 0 {
          assert tail[i - 1] == rules[i];
          assert ErrorOf(rules, i, form, ctx) == ErrorOf(tail, i - 1, form, ctx);
          assert rules[i].0 != rules[0].0;
        }
      }
    }
  }

  /** Only a date check, on a field whose value is truthy and not a string,
      can make `validateForm` throw: with the date checks all on one field,
      a throw means that field holds such a value. */
  lemma ValidateFormThrowsOnDates(form: Form, rules: seq<(string, seq<Rule>)>, ctx: Context, field: nat)
    requires Valid(ctx.today) && field < |rules|
    requires forall i, k :: 0 <= i < |rules| && 0 <= k < |rules[i].1| && rules[i].1[k].kind in {IsDate, FutureDate} ==> i == field
    ensures ValidateForm(form, rules, ctx).Err? ==>
      Truthy(Lookup(form, rules[field].0)) && !Lookup(form, rules[field].0).Str?
  {
    if ValidateForm(form, rules, ctx).Err? {
      var i :| 0 <= i < |rules| && ErrorOf(rules, i, form, ctx).Err?;
      var k :| 0 <= k < |rules[i].1| && Fires(rules[i].1[k], Lookup(form, rules[i].0), form, ctx).Err?;
    }
  }

  /** Every key of the errors object names a field of the rules. */
  lemma ErrorKeysAreFields(form: Form, rules: seq<(string, seq<Rule>)>, ctx: Context, errors: map<string, string>)
    requires Valid(ctx.today)
    requires ValidateForm(form, rules, ctx) == Ok(errors)
    ensures forall f :: f in errors ==> exists i :: 0 <= i < |rules| && rules[i].0 == f
  {
    ValidateFormKeys(form, rules, ctx, errors);
  }

  /** `isFormValid`: no field has an error. */
  predicate IsFormValid(errors: map<string, string>): (r: bool)
    ensures r <==> forall f :: f !in errors
  {
    |errors| == 0
  }

  /** A form validates clean exactly when no rule of any field fires. */
  lemma FormValidIff(form: Form, rules: seq<(string, seq<Rule>)>, ctx: Context, errors: map<string, string>)
    requires Valid(ctx.today)
    requires ValidateForm(form, rules, ctx) == Ok(errors)
    ensures IsFormValid(errors) <==>
      forall i, k :: 0 <= i < |rules| && 0 <= k < |rules[i].1| ==>
        Fires(rules[i].1[k], Lookup(form, rules[i].0), form, ctx) == Ok(false)
  {
    ValidateFormKeys(form, rules, ctx, errors);
    if !IsFormValid(errors) {
      var f :| f in errors;
      var i :| 0 <= i < |rules| && rules[i].0 == f && ErrorOf(rules, i, form, ctx) != Ok(None);
      assert !(forall k :: 0 <= k < |rules[i].1| ==> Fires(rules[i].1[k], Lookup(form, rules[i].0), form, ctx) == Ok(false));
    } else {
      forall i, k | 0 <= i < |rules| && 0 <= k < |rules[i].1|
        ensures Fires(rules[i].1[k], Lookup(form, rules[i].0), form, ctx) == Ok(false)
      {
        assert rules[i].0 !in errors;
        assert ErrorOf(rules, i, form, ctx) == Ok(None);
      }
    }
  }

  /** An empty value passes every rule list without `required` or `custom`:
      such fields are optional. */
  lemma {:induction false} OptionalFieldMayBeEmpty(rules: seq<Rule>, value: Value, form: Form, ctx: Context)
    requires Valid(ctx.today)
    requires !IsRequired(value)
    requires forall k :: 0 <= k < |rules| ==> rules[k].kind != Required && rules[k].kind != Custom
    ensures FieldError(rules, value, form, ctx) == Ok(None)
  {
    forall k | 0 <= k < |rules|
      ensures Fires(rules[k], value, form, ctx) == Ok(false)
    {
      assert rules[k].kind != Required && rules[k].kind != Custom;
    }
  }
}
