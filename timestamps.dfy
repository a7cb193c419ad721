/** The two time functions of the scheduler: `parse_datetime`, which reads a
    record's Date and Time fields with `strptime(..., "%Y-%m-%d %H:%M")`, and
    `should_post_now`, the due-time rule. Times are naive wall-clock times in
    the scheduler's zone; an instant is a count of seconds since
    0001-01-01 00:00:00 in that zone. */
module Timestamps {
  import opened Common

  /** A naive `datetime` without microseconds. */
  datatype DateTime = DateTime(year: int, month: int, day: int, hour: int, minute: int, second: int)

  predicate IsLeap(y: int) {
    y % 4 == 0 && (y % 100 != 0 || y % 400 == 0)
  }

  function DaysInMonth(y: int, m: int): (n: int)
    requires 1 <= m <= 12
    ensures 28 <= n <= 31
  {
    if m == 2 then (if IsLeap(y) then 29 else 28)
    else if m == 4 || m == 6 || m == 9 || m == 11 then 30
    else 31
  }

  /** The values `datetime` accepts. */
  predicate Valid(dt: DateTime) {
    && 1 <= dt.year <= 9999
    && 1 <= dt.month <= 12
    && 1 <= dt.day <= DaysInMonth(dt.year, dt.month)
    && 0 <= dt.hour <= 23
    && 0 <= dt.minute <= 59
    && 0 <= dt.second <= 59
  }

  // ---------------------------------------------------------------------
  // Decimal digits (the `\d` of the strptime patterns, narrowed to ASCII)

  predicate IsDigit(c: char) {
    '0' <= c <= '9'
  }

  predicate AllDigits(t: string) {
    forall i :: 0 <= i < |t| ==> IsDigit(t[i])
  }

  function DigitValue(c: char): int
    requires IsDigit(c)
  {
    c as int - '0' as int
  }

  function DigitChar(v: int): char
    requires 0 <= v <= 9
  {
    (v + '0' as int) as char
  }

  /** The value of a string of decimal digits, as `int()` gives it. */
  function Num(t: string): int
    requires AllDigits(t)
  {
    if t == [] then 0 else Num(t[..|t| - 1]) * 10 + DigitValue(t[|t| - 1])
  }

  /** A one- or two-digit field as strftime would write it, zero-padded when wide. */
  function Field(v: int, wide: bool): string
    requires 0 <= v <= 99 && (!wide ==> v <= 9)
  {
    if wide then [DigitChar(v / 10), DigitChar(v % 10)] else [DigitChar(v)]
  }

  /** A four-digit zero-padded year. */
  function Year4(v: int): string
    requires 0 <= v <= 9999
  {
    Field(v / 100, true) + Field(v % 100, true)
  }

  /** The length of the run of digits at the front of `s`. */
  function DigitRun(s: string): (n: nat)
    ensures n <= |s| && AllDigits(s[..n])
    ensures n < |s| ==> !IsDigit(s[n])
  {
    if s != [] && IsDigit(s[0]) then
      var n := 1 + DigitRun(s[1..]);
      assert s[..n] == [s[0]] + s[1..][..n - 1];
      n
    else
      0
  }

  /** The length of the run of whitespace at the front of `s`. */
  function SpaceRun(s: string): (n: nat)
    ensures n <= |s| && AllSpace(s[..n])
    ensures n < |s| ==> !IsSpace(s[n])
  {
    if s != [] && IsSpace(s[0]) then
      var n := 1 + SpaceRun(s[1..]);
      assert s[..n] == [s[0]] + s[1..][..n - 1];
      n
    else
      0
  }

  // ---------------------------------------------------------------------
  // The strings "%Y-%m-%d %H:%M" matches, and the matcher itself

  /** How a day of the month may be written: `[1-9]`, two digits, or `' [1-9]'`. */
  datatype DayForm = Narrow | Wide | Spaced

  /** The choices a matching string makes: the width of each field, the form
      of the day and the whitespace run the pattern's blank matched. */
  datatype Style = Style(monthWide: bool, day: DayForm, sep: string, hourWide: bool, minuteWide: bool)

  /** The style can write `dt`: one-digit forms only for values below ten, and
      a separator of one or more whitespace characters. */
  predicate Fits(dt: DateTime, st: Style) {
    && (!st.monthWide ==> dt.month <= 9)
    && (st.day != Wide ==> dt.day <= 9)
    && st.sep != [] && AllSpace(st.sep)
    && (!st.hourWide ==> dt.hour <= 9)
    && (!st.minuteWide ==> dt.minute <= 9)
  }

  function DayText(d: int, form: DayForm): string
    requires 0 <= d <= 99 && (form != Wide ==> d <= 9)
  {
    match form
    case Narrow => Field(d, false)
    case Wide => Field(d, true)
    case Spaced => [' '] + Field(d, false)
  }

  /** The Date part of a rendering: year, dash, month, dash, day. */
  function DateText(dt: DateTime, monthWide: bool, day: DayForm): string
    requires Valid(dt) && (!monthWide ==> dt.month <= 9) && (day != Wide ==> dt.day <= 9)
  {
    Year4(dt.year) + ("-" + (Field(dt.month, monthWide) + ("-" + DayText(dt.day, day))))
  }

  /** The Time part of a rendering: hour, colon, minute. */
  function TimeText(dt: DateTime, hourWide: bool, minuteWide: bool): string
    requires Valid(dt) && (!hourWide ==> dt.hour <= 9) && (!minuteWide ==> dt.minute <= 9)
  {
    Field(dt.hour, hourWide) + (":" + Field(dt.minute, minuteWide))
  }

  /** The one string that writes `dt` in style `st`. */
  function Render(dt: DateTime, st: Style): string
    requires Valid(dt) && Fits(dt, st)
  {
    DateText(dt, st.monthWide, st.day) + (st.sep + TimeText(dt, st.hourWide, st.minuteWide))
  }

  /** `\d\d\d\d-`: four digits and a dash; the year and the text after the dash. */
  function ReadYear(s: string): Option<(int, string)>
  {
    if DigitRun(s) == 4 && |s| > 4 && s[4] == '-' then Some((Num(s[..4]), s[5..])) else None
  }

  /** The text a field's terminator stands for: the character, or nothing at
      the end of the string. */
  function TermText(term: Option<char>): string
  {
    match term
    case None => []
    case Some(c) => [c]
  }

  /** A field of one to `max` digits followed by `term` (or by the end of the
      string when `term` is None): its value, whether it had two digits, and
      the text after the terminator. Because the terminator is not a digit
      the field is the whole run of digits. */
  function ReadField(s: string, max: nat, term: Option<char>): Option<(int, bool, string)>
  {
    var n := DigitRun(s);
    if n < 1 || n > max then None
    else
      match term
      case None => if n == |s| then Some((Num(s[..n]), n == 2, [])) else None
      case Some(c) => if n < |s| && s[n] == c then Some((Num(s[..n]), n == 2, s[n + 1..])) else None
  }

  /** The day field `3[01]|[12]\d|0[1-9]|[1-9]| [1-9]`: a blank and one digit, or
      one or two digits; the pattern's blank that follows is read by ReadSep. */
  function ReadDay(s: string): Option<(int, DayForm, string)>
  {
    if s != [] && s[0] == ' ' then
      if DigitRun(s[1..]) == 1 then Some((Num(s[1..2]), Spaced, s[2..])) else None
    else
      var n := DigitRun(s);
      if 1 <= n <= 2 then Some((Num(s[..n]), if n == 2 then Wide else Narrow, s[n..])) else None
  }

  /** `\s+`: the whole run of whitespace, which must not be empty. */
  function ReadSep(s: string): Option<(string, string)>
  {
    var n := SpaceRun(s);
    if n >= 1 then Some((s[..n], s[n..])) else None
  }

  /** The strptime match of "%Y-%m-%d %H:%M" against the whole of `s`: the
      five fields in turn (month `1[0-2]|0[1-9]|[1-9]`, hour `2[0-3]|[0-1]\d|\d`,
      minute `[0-5]\d|\d`, each read as its run of digits and range-checked by
      Valid), no text left over, and a date that exists. Besides the value the
      match yields the style it found. */
  function Scan(s: string): Option<(DateTime, Style)>
  {
    match ReadYear(s)
    case None => None
    case Some((y, r1)) =>
      match ReadField(r1, 2, Some('-'))
      case None => None
      case Some((m, mw, r2)) =>
        match ReadDay(r2)
        case None => None
        case Some((d, form, r3)) =>
          match ReadSep(r3)
          case None => None
          case Some((sep, r4)) =>
            match ReadField(r4, 2, Some(':'))
            case None => None
            case Some((h, hw, r5)) =>
              match ReadField(r5, 2, None)
              case None => None
              case Some((mi, miw, _)) =>
                var dt := DateTime(y, m, d, h, mi, 0);
                if Valid(dt) then Some((dt, Style(mw, form, sep, hw, miw))) else None
  }

  /** `datetime.strptime(s, "%Y-%m-%d %H:%M")`, with None for its ValueError. */
  function Strptime(s: string): Option<DateTime>
  {
    match Scan(s)
    case None => None
    case Some(found) => Some(found.0)
  }

  /** `re.sub(r'\s+', ' ', s)`: every run of whitespace becomes one blank. */
  function CollapseSpaces(s: string): (r: string)
    ensures |r| <= |s| && (r == [] <==> s == [])
    ensures r != [] ==> (IsSpace(r[0]) <==> IsSpace(s[0]))
    ensures forall i :: 0 <= i < |r| && IsSpace(r[i]) ==> r[i] == ' ' && (i + 1 < |r| ==> !IsSpace(r[i + 1]))
    decreases |s|
  {
    if s == [] then []
    else if IsSpace(s[0]) then
      var rest := LStrip(s);
      assert |rest| < |s|;
      [' '] + CollapseSpaces(rest)
    else
      [s[0]] + CollapseSpaces(s[1..])
  }

  /** The characters of `s` that are not whitespace, in order. */
  function NonSpace(s: string): (r: string)
    ensures forall i :: 0 <= i < |r| ==> !IsSpace(r[i])
  {
    if s == [] then [] else (if IsSpace(s[0]) then [] else [s[0]]) + NonSpace(s[1..])
  }

  lemma {:induction false} NonSpaceAfterSpace(w: string, x: string)
    requires AllSpace(w)
    ensures NonSpace(w + x) == NonSpace(x)
  {
    if w != [] {
      assert (w + x)[1..] == w[1..] + x;
      NonSpaceAfterSpace(w[1..], x);
    } else {
      assert w + x == x;
    }
  }

  /** Collapsing keeps every character that is not whitespace, in order. */
  lemma {:induction false} CollapseSpacesText(s: string)
    ensures NonSpace(CollapseSpaces(s)) == NonSpace(s)
    decreases |s|
  {
    if s != [] {
      if IsSpace(s[0]) {
        var rest := LStrip(s);
        CollapseSpacesText(rest);
        var c := CollapseSpaces(rest);
        assert ([' '] + c)[1..] == c;
        LStripSuffix(s);
        assert s == s[..|s| - |rest|] + rest;
        NonSpaceAfterSpace(s[..|s| - |rest|], rest);
      } else {
        CollapseSpacesText(s[1..]);
        assert ([s[0]] + CollapseSpaces(s[1..]))[1..] == CollapseSpaces(s[1..]);
      }
    }
  }

  /** A run of whitespace collapses to one blank. */
  lemma CollapseSpacesOfRun(w: string)
    requires w != [] && AllSpace(w)
    ensures CollapseSpaces(w) == " "
  {
    LStripOfPadded(w, []);
    assert w + [] == w;
  }

  lemma CollapseSpacesWordHead(c: char, t: string)
    requires !IsSpace(c)
    ensures CollapseSpaces([c] + t) == [c] + CollapseSpaces(t)
  {
    assert ([c] + t)[0] == c && ([c] + t)[1..] == t;
  }

  lemma LStripAppend(x: string, y: string)
    requires LStrip(x) != []
    ensures LStrip(x + y) == LStrip(x) + y
  {
    var rest := LStrip(x);
    LStripSuffix(x);
    var k := |x| - |rest|;
    assert x == x[..k] + rest;
    assert x + y == x[..k] + (rest + y);
    LStripOfPadded(x[..k], rest + y);
  }

  /** Collapsing works run by run: cutting a string anywhere but inside a
      run of whitespace and collapsing the two pieces gives the same result.
      With CollapseSpacesOfRun and the single characters that are not
      whitespace, which collapse to themselves, this determines the
      function. */
  lemma {:induction false} CollapseSpacesAppend(x: string, y: string)
    requires x == [] || y == [] || !IsSpace(x[|x| - 1]) || !IsSpace(y[0])
    ensures CollapseSpaces(x + y) == CollapseSpaces(x) + CollapseSpaces(y)
    decreases |x|
  {
    if x == [] {
      assert x + y == y;
    } else if y == [] {
      assert x + y == x;
    } else if !IsSpace(x[0]) {
      var t := x[1..];
      assert x == [x[0]] + t && x + y == [x[0]] + (t + y);
      if t != [] {
        assert t[|t| - 1] == x[|x| - 1];
      }
      CollapseSpacesAppend(t, y);
      CollapseSpacesWordHead(x[0], t + y);
      CollapseSpacesWordHead(x[0], t);
    } else {
      var rest := LStrip(x);
      assert (x + y)[0] == x[0];
      if rest == [] {
        LStripSuffix(x);
        assert x[..|x|] == x;
        LStripOfPadded(x, y);
        assert CollapseSpaces(x) == [' '];
      } else {
        LStripAppend(x, y);
        LStripSuffix(x);
        assert rest == x[|x| - |rest|..];
        assert rest[|rest| - 1] == x[|x| - 1];
        CollapseSpacesAppend(rest, y);
      }
    }
  }

  /** `parse_datetime(date_str, time_str)`: both are stripped, the time's
      whitespace runs collapsed, and the two joined by a blank for strptime. */
  function ParseDateTime(date: string, time: string): (r: Option<DateTime>)
    ensures r.Some? ==> Valid(r.value) && r.value.second == 0
  {
    var joined := Strip(date) + " " + CollapseSpaces(Strip(time));
    var r := Strptime(joined);
    if r.Some? then ScanSound(joined); r else r
  }

  // ---------------------------------------------------------------------
  // Digits read back what Field and Year4 write, and the converse

  lemma Num1(t: string)
    requires |t| == 1 && AllDigits(t)
    ensures Num(t) == DigitValue(t[0])
  {
    assert t[..0] == [];
  }

  lemma Num2(t: string)
    requires |t| == 2 && AllDigits(t)
    ensures Num(t) == DigitValue(t[0]) * 10 + DigitValue(t[1])
  {
    Num1(t[..1]);
  }

  lemma Num4(t: string)
    requires |t| == 4 && AllDigits(t)
    ensures Num(t) == Num(t[..2]) * 100 + Num(t[2..])
  {
    Num2(t[..2]);
    Num2(t[2..]);
    assert t[..3][..2] == t[..2];
    assert t[..3][..|t[..3]| - 1] == t[..2];
  }

  lemma FieldOfDigits(t: string)
    requires 1 <= |t| <= 2 && AllDigits(t)
    ensures 0 <= Num(t) <= 99 && (|t| == 1 ==> Num(t) <= 9)
    ensures Field(Num(t), |t| == 2) == t
  {
    if |t| == 1 { Num1(t); } else { Num2(t); }
  }

  lemma YearOfDigits(t: string)
    requires |t| == 4 && AllDigits(t)
    ensures 0 <= Num(t) <= 9999 && Year4(Num(t)) == t
  {
    Num4(t);
    FieldOfDigits(t[..2]);
    FieldOfDigits(t[2..]);
    var hi, lo := Num(t[..2]), Num(t[2..]);
    assert (hi * 100 + lo) / 100 == hi && (hi * 100 + lo) % 100 == lo;
    assert t == t[..2] + t[2..];
  }

  lemma DigitsOfField(v: int, wide: bool)
    requires 0 <= v <= 99 && (!wide ==> v <= 9)
    ensures AllDigits(Field(v, wide)) && |Field(v, wide)| == (if wide then 2 else 1)
    ensures Num(Field(v, wide)) == v
  {
    if wide { Num2(Field(v, wide)); } else { Num1(Field(v, wide)); }
  }

  lemma DigitsOfYear(v: int)
    requires 0 <= v <= 9999
    ensures AllDigits(Year4(v)) && |Year4(v)| == 4 && Num(Year4(v)) == v
  {
    var t := Year4(v);
    DigitsOfField(v / 100, true);
    DigitsOfField(v % 100, true);
    assert t[..2] == Field(v / 100, true) && t[2..] == Field(v % 100, true);
    Num4(t);
  }

  lemma {:induction false} DigitRunOf(a: string, b: string)
    requires AllDigits(a) && (b == [] || !IsDigit(b[0]))
    ensures DigitRun(a + b) == |a|
  {
    if a == [] {
      assert a + b == b;
    } else {
      assert (a + b)[1..] == a[1..] + b;
      DigitRunOf(a[1..], b);
    }
  }

  lemma {:induction false} SpaceRunOf(a: string, b: string)
    requires AllSpace(a) && (b == [] || !IsSpace(b[0]))
    ensures SpaceRun(a + b) == |a|
  {
    if a == [] {
      assert a + b == b;
    } else {
      assert (a + b)[1..] == a[1..] + b;
      SpaceRunOf(a[1..], b);
    }
  }

  // ---------------------------------------------------------------------
  // Each reader accepts exactly what the matching writer produces

  lemma ReadYearSound(s: string)
    requires ReadYear(s).Some?
    ensures var (y, rest) := ReadYear(s).value;
            0 <= y <= 9999 && s == Year4(y) + ("-" + rest)
  {
    YearOfDigits(s[..4]);
    assert s == s[..4] + ("-" + s[5..]);
  }

  lemma ReadYearOf(y: int, rest: string)
    requires 0 <= y <= 9999
    ensures ReadYear(Year4(y) + ("-" + rest)) == Some((y, rest))
  {
    var s := Year4(y) + ("-" + rest);
    DigitsOfYear(y);
    DigitRunOf(Year4(y), "-" + rest);
    assert s[..4] == Year4(y) && s[5..] == rest;
  }

  lemma ReadFieldSound(s: string, max: nat, term: Option<char>)
    requires max <= 2 && ReadField(s, max, term).Some?
    ensures var (v, wide, rest) := ReadField(s, max, term).value;
            && 0 <= v <= 99 && (!wide ==> v <= 9) && (wide ==> max >= 2)
            && (term.None? ==> rest == [])
            && s == Field(v, wide) + (TermText(term) + rest)
  {
    var n := DigitRun(s);
    FieldOfDigits(s[..n]);
    match term
    case None => assert s == s[..n] + ([] + []);
    case Some(c) => assert s == s[..n] + ([c] + s[n + 1..]);
  }

  lemma ReadFieldOf(v: int, wide: bool, max: nat, term: Option<char>, rest: string)
    requires 0 <= v <= 99 && (!wide ==> v <= 9) && 1 <= max && (wide ==> max >= 2)
    requires term.None? ==> rest == []
    requires term.Some? ==> !IsDigit(term.value)
    ensures ReadField(Field(v, wide) + (TermText(term) + rest), max, term) == Some((v, wide, rest))
  {
    var f := Field(v, wide);
    var s := f + (TermText(term) + rest);
    DigitsOfField(v, wide);
    DigitRunOf(f, TermText(term) + rest);
    assert s[..|f|] == f;
    match term
    case None => assert s == f + [];
    case Some(c) => assert s[|f|] == c && s[|f| + 1..] == rest;
  }

  lemma ReadDaySound(s: string)
    requires ReadDay(s).Some?
    ensures var (d, form, rest) := ReadDay(s).value;
            && 0 <= d <= 99 && (form != Wide ==> d <= 9)
            && s == DayText(d, form) + rest && (rest == [] || !IsDigit(rest[0]))
  {
    if s != [] && s[0] == ' ' {
      FieldOfDigits(s[1..][..1]);
      assert s[1..2] == s[1..][..1];
      assert s == [' '] + s[1..2] + s[2..];
      assert s[2..] == s[1..][1..];
    } else {
      var n := DigitRun(s);
      FieldOfDigits(s[..n]);
      assert s == s[..n] + s[n..];
    }
  }

  lemma ReadDayOf(d: int, form: DayForm, rest: string)
    requires 0 <= d <= 99 && (form != Wide ==> d <= 9)
    requires rest == [] || !IsDigit(rest[0])
    ensures ReadDay(DayText(d, form) + rest) == Some((d, form, rest))
  {
    var f := Field(d, form == Wide);
    DigitsOfField(d, form == Wide);
    DigitRunOf(f, rest);
    if form == Spaced {
      var s := [' '] + f + rest;
      assert DayText(d, form) + rest == s;
      assert s[1..] == f + rest && s[1..2] == f && s[2..] == rest;
    } else {
      var s := f + rest;
      assert DayText(d, form) + rest == s;
      assert s[..|f|] == f && s[|f|..] == rest;
    }
  }

  lemma ReadSepSound(s: string)
    requires ReadSep(s).Some?
    ensures var (sep, rest) := ReadSep(s).value;
            sep != [] && AllSpace(sep) && s == sep + rest && (rest == [] || !IsSpace(rest[0]))
  {
    var n := SpaceRun(s);
    assert s == s[..n] + s[n..];
  }

  lemma ReadSepOf(sep: string, rest: string)
    requires sep != [] && AllSpace(sep) && (rest == [] || !IsSpace(rest[0]))
    ensures ReadSep(sep + rest) == Some((sep, rest))
  {
    SpaceRunOf(sep, rest);
    assert (sep + rest)[..|sep|] == sep && (sep + rest)[|sep|..] == rest;
  }

  // ---------------------------------------------------------------------
  // The matcher accepts exactly the renderings of valid datetimes

  /** Helper: concatenation regrouped; a separate lemma keeps the regrouping out of
      the callers' proof contexts. */
  lemma Assoc(a: string, b: string, c: string)
    ensures (a + b) + c == a + (b + c)
  {
  }

  /** A Date part followed by a separator and a Time part, regrouped the way
      the readers consume it. */
  lemma RenderShape(dt: DateTime, st: Style)
    requires Valid(dt) && Fits(dt, st)
    ensures Render(dt, st) ==
            Year4(dt.year) + ("-" + (Field(dt.month, st.monthWide) + ("-" + (DayText(dt.day, st.day)
            + (st.sep + (Field(dt.hour, st.hourWide) + (":" + Field(dt.minute, st.minuteWide))))))))
  {
    var y, m, d := Year4(dt.year), Field(dt.month, st.monthWide), DayText(dt.day, st.day);
    var x := st.sep + TimeText(dt, st.hourWide, st.minuteWide);
    Assoc(y, "-" + (m + ("-" + d)), x);
    Assoc("-", m + ("-" + d), x);
    Assoc(m, "-" + d, x);
    Assoc("-", d, x);
  }

  /** Soundness: a string strptime accepts is the rendering of a valid
      datetime with zero seconds, in a style that fits it. */
  lemma ScanSound(s: string)
    requires Scan(s).Some?
    ensures var (dt, st) := Scan(s).value;
            Valid(dt) && dt.second == 0 && Fits(dt, st) && s == Render(dt, st)
  {
    var (y, r1) := ReadYear(s).value;
    ReadYearSound(s);
    var (m, mw, r2) := ReadField(r1, 2, Some('-')).value;
    ReadFieldSound(r1, 2, Some('-'));
    var (d, form, r3) := ReadDay(r2).value;
    ReadDaySound(r2);
    var (sep, r4) := ReadSep(r3).value;
    ReadSepSound(r3);
    var (h, hw, r5) := ReadField(r4, 2, Some(':')).value;
    ReadFieldSound(r4, 2, Some(':'));
    var (mi, miw, r6) := ReadField(r5, 2, None).value;
    ReadFieldSound(r5, 2, None);
    var (dt, st) := Scan(s).value;
    assert dt == DateTime(y, m, d, h, mi, 0) && st == Style(mw, form, sep, hw, miw);
    assert r5 == Field(mi, miw) by {
      assert TermText(None) + r6 == [];
    }
    RenderShape(dt, st);
  }

  /** Completeness: strptime accepts every rendering of a valid datetime with
      zero seconds and gives back that datetime and that style. */
  lemma ScanComplete(dt: DateTime, st: Style)
    requires Valid(dt) && dt.second == 0 && Fits(dt, st)
    ensures Scan(Render(dt, st)) == Some((dt, st))
  {
    var r5 := Field(dt.minute, st.minuteWide);
    var r4 := Field(dt.hour, st.hourWide) + (":" + r5);
    var r3 := st.sep + r4;
    var r2 := DayText(dt.day, st.day) + r3;
    var r1 := Field(dt.month, st.monthWide) + ("-" + r2);
    RenderShape(dt, st);
    ReadYearOf(dt.year, r1);
    ReadFieldOf(dt.month, st.monthWide, 2, Some('-'), r2);
    ReadDayOf(dt.day, st.day, r3);
    DigitsOfField(dt.hour, st.hourWide);
    ReadSepOf(st.sep, r4);
    ReadFieldOf(dt.hour, st.hourWide, 2, Some(':'), r5);
    assert r5 + (TermText(None) + []) == r5;
    ReadFieldOf(dt.minute, st.minuteWide, 2, None, []);
    ScanSteps(Render(dt, st), dt.year, r1, dt.month, st.monthWide, r2, dt.day, st.day, r3,
              st.sep, r4, dt.hour, st.hourWide, r5, dt.minute, st.minuteWide);
  }

  /** Scan chains its readers: when each one succeeds on what the previous
      left, Scan yields their fields. */
  lemma ScanSteps(s: string, y: int, r1: string, m: int, mw: bool, r2: string, d: int, form: DayForm, r3: string,
                  sep: string, r4: string, h: int, hw: bool, r5: string, mi: int, miw: bool)
    requires ReadYear(s) == Some((y, r1))
    requires ReadField(r1, 2, Some('-')) == Some((m, mw, r2))
    requires ReadDay(r2) == Some((d, form, r3))
    requires ReadSep(r3) == Some((sep, r4))
    requires ReadField(r4, 2, Some(':')) == Some((h, hw, r5))
    requires ReadField(r5, 2, None) == Some((mi, miw, []))
    requires Valid(DateTime(y, m, d, h, mi, 0))
    ensures Scan(s) == Some((DateTime(y, m, d, h, mi, 0), Style(mw, form, sep, hw, miw)))
  {
  }

  /** strptime succeeds on `s` with `dt` exactly when `s` writes the valid,
      zero-second `dt` in some style that fits it. */
  lemma StrptimeIff(s: string, dt: DateTime)
    ensures Strptime(s) == Some(dt) <==>
            Valid(dt) && dt.second == 0 && exists st :: Fits(dt, st) && s == Render(dt, st)
  {
    if Strptime(s) == Some(dt) {
      ScanSound(s);
      var st := Scan(s).value.1;
      assert Fits(dt, st) && s == Render(dt, st);
    }
    if Valid(dt) && dt.second == 0 && exists st :: Fits(dt, st) && s == Render(dt, st) {
      var st :| Fits(dt, st) && s == Render(dt, st);
      ScanComplete(dt, st);
    }
  }

  /** parse_datetime yields `dt` exactly when the stripped Date, a blank and
      the stripped Time with its whitespace runs collapsed write the valid,
      zero-second `dt` in the pattern's forms; every other input yields None. */
  lemma ParseDateTimeIff(date: string, time: string, dt: DateTime)
    ensures ParseDateTime(date, time) == Some(dt) <==>
            && Valid(dt) && dt.second == 0
            && exists st :: Fits(dt, st) && Strip(date) + " " + CollapseSpaces(Strip(time)) == Render(dt, st)
  {
    StrptimeIff(Strip(date) + " " + CollapseSpaces(Strip(time)), dt);
  }

  lemma {:induction false} CollapseSpacesKeeps(s: string)
    requires forall i :: 0 <= i < |s| ==> !IsSpace(s[i])
    ensures CollapseSpaces(s) == s
  {
    if s != [] {
      CollapseSpacesKeeps(s[1..]);
      assert [s[0]] + s[1..] == s;
    }
  }

  lemma DateTextTrimmed(dt: DateTime, monthWide: bool, day: DayForm)
    requires Valid(dt) && (!monthWide ==> dt.month <= 9) && (day != Wide ==> dt.day <= 9)
    ensures Trimmed(DateText(dt, monthWide, day))
  {
    var date := DateText(dt, monthWide, day);
    var f := Field(dt.day, day == Wide);
    var dd := DayText(dt.day, day);
    DigitsOfYear(dt.year);
    DigitsOfField(dt.day, day == Wide);
    assert date[0] == Year4(dt.year)[0];
    assert dd[|dd| - 1] == f[|f| - 1];
    assert date[|date| - 1] == dd[|dd| - 1];
  }

  lemma TimeTextPlain(dt: DateTime, hourWide: bool, minuteWide: bool)
    requires Valid(dt) && (!hourWide ==> dt.hour <= 9) && (!minuteWide ==> dt.minute <= 9)
    ensures forall i :: 0 <= i < |TimeText(dt, hourWide, minuteWide)| ==> !IsSpace(TimeText(dt, hourWide, minuteWide)[i])
  {
    var time := TimeText(dt, hourWide, minuteWide);
    DigitsOfField(dt.hour, hourWide);
    DigitsOfField(dt.minute, minuteWide);
    forall i | 0 <= i < |time| ensures !IsSpace(time[i]) {
      assert time[i] == ':' || IsDigit(time[i]);
    }
  }

  /** parse_datetime accepts every Date and Time written in the pattern's
      forms, whatever whitespace surrounds them, and returns the datetime
      they name. */
  lemma ParseDateTimeOfPadded(dt: DateTime, monthWide: bool, day: DayForm, hourWide: bool, minuteWide: bool,
                             w1: string, w2: string, w3: string, w4: string)
    requires Valid(dt) && dt.second == 0 && Fits(dt, Style(monthWide, day, " ", hourWide, minuteWide))
    requires AllSpace(w1) && AllSpace(w2) && AllSpace(w3) && AllSpace(w4)
    ensures ParseDateTime(w1 + DateText(dt, monthWide, day) + w2, w3 + TimeText(dt, hourWide, minuteWide) + w4) == Some(dt)
  {
    var date := DateText(dt, monthWide, day);
    var time := TimeText(dt, hourWide, minuteWide);
    DateTextTrimmed(dt, monthWide, day);
    StripOfPadded(w1, date, w2);
    TimeTextPlain(dt, hourWide, minuteWide);
    assert Trimmed(time) by {
      assert time[0] == Field(dt.hour, hourWide)[0];
    }
    StripOfPadded(w3, time, w4);
    CollapseSpacesKeeps(time);
    Assoc(date, " ", time);
    ScanComplete(dt, Style(monthWide, day, " ", hourWide, minuteWide));
  }

  // ---------------------------------------------------------------------
  // The due-time rule

  /** Days from 0001-01-01 to the given date (`date.toordinal() - 1`). */
  function DayNumber(y: int, m: int, d: int): int
    requires 1 <= m <= 12
  {
    var p := y - 1;
    var before := [0, 31, 59, 90, 120, 151, 181, 212, 243, 273, 304, 334][m - 1];
    365 * p + p / 4 - p / 100 + p / 400 + before + (if m > 2 && IsLeap(y) then 1 else 0) + d - 1
  }

  /** The minute `dt` falls in, counted from 0001-01-01 00:00. */
  function MinuteNumber(dt: DateTime): int
    requires 1 <= dt.month <= 12
  {
    (DayNumber(dt.year, dt.month, dt.day) * 24 + dt.hour) * 60 + dt.minute
  }

  /** `dt` as an instant. */
  function Seconds(dt: DateTime): int
    requires 1 <= dt.month <= 12
  {
    MinuteNumber(dt) * 60 + dt.second
  }

  /** `now.replace(second=0, microsecond=0)`. */
  function TruncateToMinute(now: int): (t: int)
    ensures t <= now < t + 60 && t % 60 == 0
  {
    now - now % 60
  }

  /** `should_post_now(post_time)` at instant `now`: the distance between the
      post time and `now` truncated to the minute is at most 40 seconds. */
  predicate ShouldPostNow(post: DateTime, now: int)
    requires 1 <= post.month <= 12
  {
    var diff := Seconds(post) - TruncateToMinute(now);
    -40 <= diff <= 40
  }

  /** For a post time on a whole minute the rule admits exactly the instants
      of that minute. */
  lemma DueIffSameMinute(post: DateTime, now: int)
    requires 1 <= post.month <= 12 && post.second == 0
    ensures ShouldPostNow(post, now) <==> MinuteNumber(post) == now / 60
    ensures ShouldPostNow(post, now) <==> Seconds(post) <= now < Seconds(post) + 60
  {
    var mp := MinuteNumber(post);
    var mn := now / 60;
    assert TruncateToMinute(now) == mn * 60;
    assert Seconds(post) - TruncateToMinute(now) == (mp - mn) * 60;
    if mp != mn {
      assert mp - mn >= 1 || mp - mn <= -1;
    }
  }

  /** Truncating `now` first makes the rule differ from "within 40 seconds of
      now": 50 seconds into the minute still admits, 30 seconds before it
      does not. */
  lemma TruncationShiftsWindow(post: DateTime)
    requires 1 <= post.month <= 12 && post.second == 0
    ensures ShouldPostNow(post, Seconds(post) + 50)
    ensures !ShouldPostNow(post, Seconds(post) - 30)
  {
    DueIffSameMinute(post, Seconds(post) + 50);
    DueIffSameMinute(post, Seconds(post) - 30);
  }
}
