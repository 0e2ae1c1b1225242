/** Interval expressions such as "@every 00h01m30s": how Go reads the duration in them, and how ground
    control brings them into a normal form. */
module HeartbeatIntervals {
  import opened Wrappers

  const SECOND: nat := 1_000_000_000
  const MINUTE: nat := 60 * SECOND
  const HOUR: nat := 60 * MINUTE
  const PREFIX: string := "@every "

  /** One more than the largest duration in nanoseconds. */
  const LIMIT: nat := 0x8000_0000_0000_0000

  // ---------------------------------------------------------------- durations

  predicate IsDigit(c: char) {
    '0' <= c <= '9'
  }

  datatype Leading = Leading(value: nat, rest: string)

  /** Reads digits from the front of `s` onto `value`, unless the number becomes too large. */
  function LeadingInt(s: string, value: nat): (r: Option<Leading>)
    ensures r.Some? ==> |r.value.rest| <= |s|
  {
    if s == "" || !IsDigit(s[0]) then Some(Leading(value, s))
    else if value > LIMIT / 10 then None
    else
      var next := 10 * value + (s[0] as int - '0' as int);
      if next > LIMIT then None else LeadingInt(s[1..], next)
  }

  function SkipDigits(s: string): (rest: string)
    ensures |rest| <= |s|
  {
    if s != "" && IsDigit(s[0]) then SkipDigits(s[1..]) else s
  }

  /** How long the unit at the front of `s` is: up to the next digit or dot. */
  function UnitLength(s: string): (n: nat)
    ensures n <= |s|
  {
    if s == "" || IsDigit(s[0]) || s[0] == '.' then 0 else 1 + UnitLength(s[1..])
  }

  function UnitOf(u: string): (unit: Option<nat>)
    ensures unit.Some? ==> unit.value > 0
  {
    if |u| == 1 then
      match u[0]
      case 's' => Some(SECOND)
      case 'm' => Some(MINUTE)
      case 'h' => Some(HOUR)
      case _ => None
    else if |u| == 2 && u[1] == 's' then
      match u[0]
      case 'n' => Some(1)
      case 'm' => Some(1_000_000)
      case 'u' | '\U{00B5}' | '\U{03BC}' => Some(1_000)
      case _ => None
    else
      None
  }

  /** What is left behind a dot and its digits, if there is a dot. */
  function AfterFraction(s: string): (rest: string)
    ensures |rest| <= |s|
    ensures s != "" && s[0] == '.' ==> |rest| < |s|
  {
    if s != "" && s[0] == '.' then SkipDigits(s[1..]) else s
  }

  function FractionDigits(s: string): string {
    if s != "" && s[0] == '.' then s[1..|s| - |AfterFraction(s)|] else ""
  }

  /** What a number with a unit is worth. `fraction` is what the digits after a dot are worth in a unit; Go computes
      it in floating point. */
  function UnitsWorth(n: nat, digits: string, u: string, fraction: (string, nat) -> nat): (worth: Option<nat>)
    ensures worth.Some? ==> worth.value <= LIMIT
  {
    var unit := UnitOf(u);
    if unit.None? || n > LIMIT / unit.value then None
    else
      var term := n * unit.value + if digits == "" then 0 else fraction(digits, unit.value);
      if term > LIMIT then None else Some(term)
  }

  /** A number, an optional fraction and a unit at the front of `s`. */
  function FirstTerm(s: string, fraction: (string, nat) -> nat): (r: Option<Leading>)
    ensures r.Some? ==> r.value.value <= LIMIT && |r.value.rest| < |s|
  {
    if s == "" || (s[0] != '.' && !IsDigit(s[0])) then None
    else
      var leading := LeadingInt(s, 0);
      if leading.None? then None
      else
        var afterInt := leading.value.rest;
        var digits, afterNumber := FractionDigits(afterInt), AfterFraction(afterInt);
        var n := UnitLength(afterNumber);
        if (|afterInt| == |s| && digits == "") || n == 0 then None
        else
          var worth := UnitsWorth(leading.value.value, digits, afterNumber[..n], fraction);
          if worth.None? then None else Some(Leading(worth.value, afterNumber[n..]))
  }

  /** Such terms again and again; `sum` is what came before. */
  function Terms(s: string, sum: nat, fraction: (string, nat) -> nat): Option<nat>
    decreases |s|
  {
    if s == "" then Some(sum)
    else
      var first := FirstTerm(s, fraction);
      if first.None? || sum + first.value.value > LIMIT then None
      else Terms(first.value.rest, sum + first.value.value, fraction)
  }

  /** Go's reading of a duration, in nanoseconds. */
  function ParseDuration(s: string, fraction: (string, nat) -> nat): Option<int> {
    var signed := s != "" && (s[0] == '-' || s[0] == '+');
    var rest := if signed then s[1..] else s;
    if rest == "0" then Some(0)
    else if rest == "" then None
    else
      var sum := Terms(rest, 0, fraction);
      if sum.None? then None
      else if signed && s[0] == '-' then Some(0 - sum.value as int)
      else if sum.value > LIMIT - 1 then None
      else Some(sum.value)
  }

  // ---------------------------------------------------------------- intervals

  datatype IntervalError =
    | EmptyExpression | UnsupportedFormat | InvalidDuration | NotPositive | BelowOneSecond | NotWholeSeconds

  /** How the satellite's scheduler reads an interval. */
  function ParseEveryExpr(expr: string, fraction: (string, nat) -> nat): Result<int, IntervalError> {
    if expr == "" then Failure(EmptyExpression)
    else if !(PREFIX <= expr) then Failure(UnsupportedFormat)
    else
      match ParseDuration(expr[|PREFIX|..], fraction)
      case None => Failure(InvalidDuration)
      case Some(d) => Success(d)
  }

  function Digits(n: nat): string {
    if n < 10 then [('0' as int + n) as char] else Digits(n / 10) + [('0' as int + n % 10) as char]
  }

  /** At least two digits. */
  function Padded(n: nat): string {
    if n < 10 then "0" + Digits(n) else Digits(n)
  }

  /** A number with its unit in front of more text. */
  function Term(n: nat, u: char, rest: string): string {
    Padded(n) + [u] + rest
  }

  function NormalForm(hours: nat, minutes: nat, seconds: nat): string {
    PREFIX + Term(hours, 'h', Term(minutes, 'm', Term(seconds, 's', "")))
  }

  /** How ground control checks and normalises an interval. */
  function NormalizeHeartbeatInterval(interval: string, fraction: (string, nat) -> nat): Result<string, IntervalError> {
    if interval == "" then Success("")
    else if !(PREFIX <= interval) then Failure(UnsupportedFormat)
    else
      match ParseDuration(interval[|PREFIX|..], fraction)
      case None => Failure(InvalidDuration)
      case Some(d) =>
        if d <= 0 then Failure(NotPositive)
        else if d < SECOND then Failure(BelowOneSecond)
        else if d % SECOND != 0 then Failure(NotWholeSeconds)
        else Success(NormalForm(d / HOUR, d / MINUTE % 60, d / SECOND % 60))
  }

  // ---------------------------------------------------------------- reading the normal form

  lemma {:induction false} LeadingIntOfDigits(n: nat, rest: string)
    requires n <= LIMIT
    ensures LeadingInt(Digits(n) + rest, 0) == LeadingInt(rest, n)
    decreases n
  {
    var last := [('0' as int + n % 10) as char];
    if n < 10 {
      assert (Digits(n) + rest)[1..] == rest;
    } else {
      assert Digits(n) + rest == Digits(n / 10) + (last + rest);
      LeadingIntOfDigits(n / 10, last + rest);
      assert (last + rest)[1..] == rest;
    }
  }

  lemma LeadingIntOfPadded(n: nat, rest: string)
    requires n <= LIMIT && rest != "" && !IsDigit(rest[0])
    ensures IsDigit((Padded(n) + rest)[0])
    ensures LeadingInt(Padded(n) + rest, 0) == Some(Leading(n, rest))
  {
    LeadingIntOfDigits(n, rest);
    DigitsStart(n);
    if n < 10 {
      assert (Padded(n) + rest)[1..] == Digits(n) + rest;
    }
  }

  lemma {:induction false} DigitsStart(n: nat)
    ensures Digits(n) != "" && IsDigit(Digits(n)[0])
  {
    if n >= 10 {
      DigitsStart(n / 10);
    }
  }

  lemma ProductsAreOrdered(a: nat, b: nat, unit: nat)
    requires a <= b
    ensures a * unit <= b * unit
  {
  }

  lemma Quotient(n: nat, unit: nat, limit: nat)
    requires unit > 0 && n * unit <= limit
    ensures n <= limit / unit && n <= limit
  {
    var above := limit / unit + 1;
    assert limit < above * unit;
    if above <= n {
      ProductsAreOrdered(above, n, unit);
    }
    ProductsAreOrdered(1, unit, n);
  }

  /** The units, in nanoseconds; there are no others. */
  lemma Units(u: string)
    ensures UnitOf("ns") == Some(1) && UnitOf("ms") == Some(1_000_000)
    ensures UnitOf("us") == UnitOf("\U{00B5}s") == UnitOf("\U{03BC}s") == Some(1_000)
    ensures UnitOf("s") == Some(1_000_000_000)
    ensures UnitOf("m") == Some(60_000_000_000) && UnitOf("h") == Some(3_600_000_000_000)
    ensures UnitOf(u).Some? <==> u in ["ns", "us", "\U{00B5}s", "\U{03BC}s", "ms", "s", "m", "h"]
  {
    assert |u| == 1 ==> u == [u[0]];
    assert |u| == 2 ==> u == [u[0], u[1]];
  }

  predicate AllDigits(s: string) {
    forall c <- s :: IsDigit(c)
  }

  lemma {:induction false} SkipsAllDigits(digits: string, rest: string)
    requires AllDigits(digits) && rest != "" && !IsDigit(rest[0])
    ensures SkipDigits(digits + rest) == rest
  {
    if digits == "" {
      assert digits + rest == rest;
    } else {
      assert digits[0] in digits && forall c <- digits[1..] :: c in digits;
      assert (digits + rest)[1..] == digits[1..] + rest;
      SkipsAllDigits(digits[1..], rest);
    }
  }

  lemma {:induction false} UnitEnds(u: string, rest: string)
    requires forall c <- u :: !IsDigit(c) && c != '.'
    requires rest == "" || IsDigit(rest[0]) || rest[0] == '.'
    ensures UnitLength(u + rest) == |u|
  {
    if u == "" {
      assert u + rest == rest;
    } else {
      assert u[0] in u && forall c <- u[1..] :: c in u;
      assert (u + rest)[1..] == u[1..] + rest;
      UnitEnds(u[1..], rest);
    }
  }

  lemma UnitHasNoDigits(u: string)
    requires UnitOf(u).Some?
    ensures u != "" && forall c <- u :: !IsDigit(c) && c != '.'
  {
    Units(u);
  }

  /** What stands between a number and its unit: nothing, or a dot and digits. */
  function Fraction(digits: string): string {
    if digits == "" then "" else "." + digits
  }

  function Worth(n: nat, digits: string, unit: nat, fraction: (string, nat) -> nat): nat {
    n * unit + if digits == "" then 0 else fraction(digits, unit)
  }

  lemma TooMany(n: nat, unit: nat)
    requires unit > 0
    ensures n > LIMIT / unit <==> n * unit > LIMIT
  {
    if n * unit <= LIMIT {
      Quotient(n, unit, LIMIT);
    } else if n <= LIMIT / unit {
      ProductsAreOrdered(n, LIMIT / unit, unit);
    }
  }

  lemma UnitsWorthIs(n: nat, digits: string, u: string, unit: nat, fraction: (string, nat) -> nat)
    requires UnitOf(u) == Some(unit)
    ensures
      var worth := Worth(n, digits, unit, fraction);
      UnitsWorth(n, digits, u, fraction) == if worth <= LIMIT then Some(worth) else None
  {
    TooMany(n, unit);
  }

  lemma FractionParts(digits: string, more: string)
    requires AllDigits(digits) && more != "" && !IsDigit(more[0]) && more[0] != '.'
    ensures
      var s := Fraction(digits) + more;
      s != "" && !IsDigit(s[0]) && AfterFraction(s) == more && FractionDigits(s) == digits
  {
    var s := Fraction(digits) + more;
    if digits == "" {
      assert s == more;
    } else {
      assert s[1..] == digits + more;
      SkipsAllDigits(digits, more);
    }
  }

  /** A number, with digits behind a dot or without, and its unit, in front of the end or of another number. */
  lemma FirstTermIs(s: string, n: nat, digits: string, u: string, unit: nat, rest: string,
                    fraction: (string, nat) -> nat)
    requires AllDigits(digits) && UnitOf(u) == Some(unit)
    requires rest == "" || IsDigit(rest[0]) || rest[0] == '.'
    requires s != "" && IsDigit(s[0]) && LeadingInt(s, 0) == Some(Leading(n, Fraction(digits) + (u + rest)))
    requires |Fraction(digits) + (u + rest)| < |s|
    ensures
      var worth := Worth(n, digits, unit, fraction);
      FirstTerm(s, fraction) == if worth <= LIMIT then Some(Leading(worth, rest)) else None
  {
    UnitHasNoDigits(u);
    assert u[0] in u && (u + rest)[0] == u[0];
    FractionParts(digits, u + rest);
    UnitEnds(u, rest);
    assert (u + rest)[..|u|] == u && (u + rest)[|u|..] == rest;
    UnitsWorthIs(n, digits, u, unit, fraction);
  }

  /** One number with its unit, in front of the end or of another number. */
  lemma TermIsRead(n: nat, u: char, unit: nat, rest: string, sum: nat, fraction: (string, nat) -> nat)
    requires UnitOf([u]) == Some(unit) && sum + n * unit <= LIMIT
    requires rest == "" || IsDigit(rest[0])
    ensures IsDigit(Term(n, u, rest)[0])
    ensures Terms(Term(n, u, rest), sum, fraction) == Terms(rest, sum + n * unit, fraction)
  {
    FirstTermOfPadded(n, u, unit, rest, fraction);
    TermsGoOn(Term(n, u, rest), Worth(n, "", unit, fraction), rest, sum, fraction);
  }

  lemma TermsGoOn(s: string, worth: nat, rest: string, sum: nat, fraction: (string, nat) -> nat)
    requires s != "" && FirstTerm(s, fraction) == Some(Leading(worth, rest)) && sum + worth <= LIMIT
    ensures Terms(s, sum, fraction) == Terms(rest, sum + worth, fraction)
  {}

  lemma FirstTermOfPadded(n: nat, u: char, unit: nat, rest: string, fraction: (string, nat) -> nat)
    requires UnitOf([u]) == Some(unit) && Worth(n, "", unit, fraction) <= LIMIT
    requires rest == "" || IsDigit(rest[0])
    ensures IsDigit(Term(n, u, rest)[0])
    ensures FirstTerm(Term(n, u, rest), fraction) == Some(Leading(Worth(n, "", unit, fraction), rest))
  {
    var s, more := Term(n, u, rest), [u] + rest;
    UnitLetterIsNoDigit(u);
    Quotient(n, unit, LIMIT);
    LeadingIntOfPadded(n, more);
    assert s == Padded(n) + more && Fraction("") + more == more && |more| < |s|;
    FirstTermIs(s, n, "", [u], unit, rest, fraction);
  }

  lemma UnitLetterIsNoDigit(u: char)
    requires UnitOf([u]).Some?
    ensures !IsDigit(u)
  {
    UnitHasNoDigits([u]);
    assert u in [u];
  }

  lemma TermsOfSeconds(seconds: nat, sum: nat, fraction: (string, nat) -> nat)
    requires sum + seconds * SECOND <= LIMIT
    ensures IsDigit(Term(seconds, 's', "")[0])
    ensures Terms(Term(seconds, 's', ""), sum, fraction) == Some(sum + seconds * SECOND)
  {
    UnitLetters();
    TermInFront(seconds, 's', SECOND, "", sum, sum + seconds * SECOND, fraction);
  }

  lemma TermsOfMinutes(minutes: nat, seconds: nat, sum: nat, fraction: (string, nat) -> nat)
    requires sum + minutes * MINUTE + seconds * SECOND <= LIMIT
    ensures IsDigit(Term(minutes, 'm', Term(seconds, 's', ""))[0])
    ensures
      Terms(Term(minutes, 'm', Term(seconds, 's', "")), sum, fraction) ==
      Some(sum + minutes * MINUTE + seconds * SECOND)
  {
    UnitLetters();
    TermsOfSeconds(seconds, sum + minutes * MINUTE, fraction);
    TermInFront(minutes, 'm', MINUTE, Term(seconds, 's', ""), sum, sum + minutes * MINUTE + seconds * SECOND, fraction);
  }

  lemma TermInFront(n: nat, u: char, unit: nat, rest: string, sum: nat, total: nat, fraction: (string, nat) -> nat)
    requires UnitOf([u]) == Some(unit) && sum + n * unit <= LIMIT
    requires rest == "" || IsDigit(rest[0])
    requires Terms(rest, sum + n * unit, fraction) == Some(total)
    ensures |Term(n, u, rest)| > 1 && IsDigit(Term(n, u, rest)[0])
    ensures Terms(Term(n, u, rest), sum, fraction) == Some(total)
  {
    TermIsRead(n, u, unit, rest, sum, fraction);
    DigitsStart(n);
  }

  lemma TermsOfNormalForm(hours: nat, minutes: nat, seconds: nat, sum: nat, fraction: (string, nat) -> nat)
    requires sum == hours * HOUR + minutes * MINUTE + seconds * SECOND <= LIMIT
    ensures
      var text := Term(hours, 'h', Term(minutes, 'm', Term(seconds, 's', "")));
      |text| > 1 && IsDigit(text[0]) && Terms(text, 0, fraction) == Some(sum)
  {
    UnitLetters();
    TermsOfMinutes(minutes, seconds, hours * HOUR, fraction);
    TermInFront(hours, 'h', HOUR, Term(minutes, 'm', Term(seconds, 's', "")), 0, sum, fraction);
  }

  lemma UnitLetters()
    ensures UnitOf(['h']) == Some(HOUR) && UnitOf(['m']) == Some(MINUTE) && UnitOf(['s']) == Some(SECOND)
  {
  }

  lemma NormalFormIsRead(hours: nat, minutes: nat, seconds: nat, sum: nat, fraction: (string, nat) -> nat)
    requires sum == hours * HOUR + minutes * MINUTE + seconds * SECOND < LIMIT
    ensures ParseEveryExpr(NormalForm(hours, minutes, seconds), fraction) == Success(sum)
  {
    TermsOfNormalForm(hours, minutes, seconds, sum, fraction);
    var text := Term(hours, 'h', Term(minutes, 'm', Term(seconds, 's', "")));
    assert NormalForm(hours, minutes, seconds)[|PREFIX|..] == text;
  }

  // ---------------------------------------------------------------- what normalising means

  /** An interval other than the empty one is accepted exactly when the scheduler reads a whole positive number of
      seconds from it; otherwise the error says what it reads instead. */
  lemma AcceptedIntervals(interval: string, fraction: (string, nat) -> nat)
    requires interval != ""
    ensures
      var read, out := ParseEveryExpr(interval, fraction), NormalizeHeartbeatInterval(interval, fraction);
      && (out.Success? <==> read.Success? && read.value > 0 && read.value % 1_000_000_000 == 0)
      && (out == Failure(UnsupportedFormat) <==> !("@every " <= interval))
      && (out == Failure(InvalidDuration) <==> "@every " <= interval && read.Failure?)
      && (out == Failure(NotPositive) <==> read.Success? && read.value <= 0)
      && (out == Failure(BelowOneSecond) <==> read.Success? && 0 < read.value < 1_000_000_000)
      && (out == Failure(NotWholeSeconds) <==>
            read.Success? && read.value > 1_000_000_000 && read.value % 1_000_000_000 != 0)
  {
  }

  /** The normal form has minutes and seconds below 60, stands for the same duration, is read by the
      scheduler as that duration, and normalises to itself. */
  lemma NormalFormKeepsTheDuration(interval: string, fraction: (string, nat) -> nat)
    requires interval != "" && NormalizeHeartbeatInterval(interval, fraction).Success?
    ensures
      var out, d := NormalizeHeartbeatInterval(interval, fraction).value, ParseEveryExpr(interval, fraction);
      && d.Success?
      && ParseEveryExpr(out, fraction) == d
      && NormalizeHeartbeatInterval(out, fraction) == Success(out)
      && exists h: nat, m: nat, s: nat ::
           m < 60 && s < 60 && out == NormalForm(h, m, s) && d.value == (h * 3600 + m * 60 + s) * SECOND
  {
    NormalFormOfDuration(ParseEveryExpr(interval, fraction).value, fraction);
    NormalizesByDuration(interval, fraction);
    NormalizesByDuration(NormalizeHeartbeatInterval(interval, fraction).value, fraction);
  }

  function FormOf(d: nat): string {
    NormalForm(d / HOUR, d / MINUTE % 60, d / SECOND % 60)
  }

  lemma NormalizesByDuration(interval: string, fraction: (string, nat) -> nat)
    requires interval != "" && ParseEveryExpr(interval, fraction).Success?
    requires ParseEveryExpr(interval, fraction).value > 0 && ParseEveryExpr(interval, fraction).value % SECOND == 0
    ensures
      NormalizeHeartbeatInterval(interval, fraction) == Success(FormOf(ParseEveryExpr(interval, fraction).value))
  {}

  lemma NormalFormOfDuration(d: nat, fraction: (string, nat) -> nat)
    requires 0 < d < LIMIT && d % SECOND == 0
    ensures FormOf(d) != "" && ParseEveryExpr(FormOf(d), fraction) == Success(d)
    ensures
      exists h: nat, m: nat, s: nat ::
        m < 60 && s < 60 && FormOf(d) == NormalForm(h, m, s) && d == (h * 3600 + m * 60 + s) * SECOND
  {
    var h, m, s := d / HOUR, d / MINUTE % 60, d / SECOND % 60;
    Split(d);
    NormalFormIsRead(h, m, s, d, fraction);
    assert FormOf(d) == NormalForm(h, m, s);
  }

  lemma Split(d: nat)
    requires d % SECOND == 0
    ensures d == d / HOUR * HOUR + d / MINUTE % 60 * MINUTE + d / SECOND % 60 * SECOND
    ensures d == (d / HOUR * 3600 + d / MINUTE % 60 * 60 + d / SECOND % 60) * SECOND
  {
    var n := d / SECOND;
    assert d == n * SECOND;
    assert d / MINUTE == n / 60 && d / HOUR == n / 3600;
    assert n == n / 3600 * 3600 + n / 60 % 60 * 60 + n % 60;
  }

  /** The normal form is canonical: two accepted intervals have the same one exactly when they stand for
      the same duration. */
  lemma {:induction false} NormalFormIsCanonical(a: string, b: string, fraction: (string, nat) -> nat)
    requires a != "" && NormalizeHeartbeatInterval(a, fraction).Success?
    requires b != "" && NormalizeHeartbeatInterval(b, fraction).Success?
    ensures
      NormalizeHeartbeatInterval(a, fraction) == NormalizeHeartbeatInterval(b, fraction) <==>
      ParseEveryExpr(a, fraction) == ParseEveryExpr(b, fraction)
  {
    NormalFormKeepsTheDuration(a, fraction);
    NormalFormKeepsTheDuration(b, fraction);
  }

  // ---------------------------------------------------------------- what a number with a unit is worth

  lemma {:induction false} LeadingIntTooLarge(n: nat, rest: string)
    requires n > LIMIT
    ensures LeadingInt(Digits(n) + rest, 0) == None
    decreases n
  {
    var last := [('0' as int + n % 10) as char];
    assert Digits(n) + rest == Digits(n / 10) + (last + rest);
    if n / 10 > LIMIT {
      LeadingIntTooLarge(n / 10, last + rest);
    } else {
      LeadingIntOfDigits(n / 10, last + rest);
    }
  }

  lemma OneTerm(n: nat, digits: string, u: string, unit: nat, fraction: (string, nat) -> nat)
    requires UnitOf(u) == Some(unit) && AllDigits(digits) && n <= LIMIT
    ensures
      Terms(Digits(n) + (Fraction(digits) + u), 0, fraction) ==
      if Worth(n, digits, unit, fraction) <= LIMIT then Some(Worth(n, digits, unit, fraction)) else None
  {
    var s := Digits(n) + (Fraction(digits) + u);
    UnitHasNoDigits(u);
    assert u[0] in u && u + "" == u;
    FractionParts(digits, u);
    DigitsStart(n);
    LeadingIntOfDigits(n, Fraction(digits) + u);
    FirstTermIs(s, n, digits, u, unit, "", fraction);
    assert Terms("", Worth(n, digits, unit, fraction), fraction) == Some(Worth(n, digits, unit, fraction));
  }

  lemma TextOfNumber(n: nat, digits: string, u: string)
    requires u != ""
    ensures
      var s := Digits(n) + Fraction(digits) + u;
      && |s| > 1 && s[0] != '-' && s[0] != '+'
      && s == Digits(n) + (Fraction(digits) + u)
  {
    DigitsStart(n);
  }

  /** A number with a unit, and with digits behind a dot or without, is read as so many units and what the digits are
      worth, up to 2^63 - 1 nanoseconds; more is refused. */
  lemma NumberWithUnit(n: nat, digits: string, u: string, unit: nat, fraction: (string, nat) -> nat)
    requires UnitOf(u) == Some(unit) && AllDigits(digits)
    ensures
      ParseDuration(Digits(n) + Fraction(digits) + u, fraction) ==
      if Worth(n, digits, unit, fraction) < 0x8000_0000_0000_0000 then Some(Worth(n, digits, unit, fraction)) else None
  {
    UnitHasNoDigits(u);
    assert u[0] in u;
    TextOfNumber(n, digits, u);
    if n <= LIMIT {
      OneTerm(n, digits, u, unit, fraction);
    } else {
      LeadingIntTooLarge(n, Fraction(digits) + u);
      ProductsAreOrdered(1, unit, n);
    }
  }

  /** A plus sign changes nothing, and a minus sign makes the duration negative. */
  lemma SignedDurations(s: string, fraction: (string, nat) -> nat)
    requires s != "" && s[0] != '-' && s[0] != '+'
    ensures ParseDuration("+" + s, fraction) == ParseDuration(s, fraction)
    ensures
      ParseDuration(s, fraction).Some? ==>
      ParseDuration("-" + s, fraction) == Some(-ParseDuration(s, fraction).value)
  {
    assert ("+" + s)[1..] == s && ("-" + s)[1..] == s;
  }

  /** No interval with a minus sign is accepted, whatever follows it. */
  lemma NegativeIntervalsAreRefused(s: string, fraction: (string, nat) -> nat)
    ensures NormalizeHeartbeatInterval("@every -" + s, fraction) in {Failure(InvalidDuration), Failure(NotPositive)}
  {
    assert ("@every -" + s)[|PREFIX|..] == "-" + s && ("-" + s)[1..] == s;
  }

  /** Ninety seconds, as the documentation has them. */
  lemma NinetySeconds(fraction: (string, nat) -> nat)
    ensures NormalizeHeartbeatInterval("@every 90s", fraction) == Success("@every 00h01m30s")
  {
    ReadNinetySeconds(fraction);
    NormalFormIsByDuration("@every 90s", 0, 1, 30, fraction);
    FormOfNinetySeconds();
  }

  /** The normal form of an interval is that of its duration. */
  lemma NormalFormIsByDuration(interval: string, hours: nat, minutes: nat, seconds: nat, fraction: (string, nat) -> nat)
    requires interval != "" && minutes < 60 && seconds < 60 && hours + minutes + seconds > 0
    requires ParseEveryExpr(interval, fraction) == Success((hours * 3600 + minutes * 60 + seconds) * SECOND)
    ensures NormalizeHeartbeatInterval(interval, fraction) == Success(NormalForm(hours, minutes, seconds))
  {
    var n := hours * 3600 + minutes * 60 + seconds;
    assert n * SECOND > 0 && n * SECOND % SECOND == 0;
    AcceptedIntervals(interval, fraction);
    NormalFormKeepsTheDuration(interval, fraction);
    var h: nat, m: nat, s: nat :| m < 60 && s < 60
      && NormalizeHeartbeatInterval(interval, fraction) == Success(NormalForm(h, m, s))
      && n * SECOND == (h * 3600 + m * 60 + s) * SECOND;
    SameSplit(hours, minutes, seconds, h, m, s);
  }

  lemma SameSplit(h: nat, m: nat, s: nat, h': nat, m': nat, s': nat)
    requires m < 60 && s < 60 && m' < 60 && s' < 60
    requires (h * 3600 + m * 60 + s) * SECOND == (h' * 3600 + m' * 60 + s') * SECOND
    ensures h == h' && m == m' && s == s'
  {
    assert 3600 * (h - h') == 60 * (m' - m) + s' - s;
    assert -3600 < 60 * (m' - m) + s' - s < 3600;
    assert 60 * (m' - m) == s - s';
  }

  lemma ReadNinetySeconds(fraction: (string, nat) -> nat)
    ensures ParseEveryExpr("@every 90s", fraction) == Success(90_000_000_000)
  {
    assert Digits(90) == Digits(9) + "0" == "90";
    assert Digits(90) + Fraction("") + "s" == "90s" == "@every 90s"[|PREFIX|..];
    NumberWithUnit(90, "", "s", SECOND, fraction);
  }

  lemma FormOfNinetySeconds()
    ensures NormalForm(0, 1, 30) == "@every 00h01m30s"
  {
    assert Padded(0) == "00" && Padded(1) == "01";
    assert Padded(30) == Digits(3) + "0" == "30";
    assert Term(30, 's', "") == "30s" && Term(1, 'm', "30s") == "01m30s" && Term(0, 'h', "01m30s") == "00h01m30s";
  }
}
