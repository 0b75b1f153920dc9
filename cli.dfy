/**
 * `get_timedelta` of src/trace_explorer/cli/__init__.py: a time span such as `1h30m`
 * given on the command line, in microseconds.
 */
module Cli {
  import opened Wrappers
  import opened Values

  const MICROSECONDS_PER_SECOND := 1000000

  /** One match of `(\d+)(s|m|h)`: the number and the unit letter. */
  datatype Match = Match(amount: nat, unit: char)

  datatype TimeError =
    | UnparsableTime    // "Time format cannot be parsed"
    | DurationOverflow  // OverflowError of `timedelta`: more than 999999999 days

  /** The smallest total of seconds `timedelta` refuses: 10^9 days. */
  const TIMEDELTA_SECONDS_BOUND := 1000000000 * 86400

  predicate IsDigit(c: char)
  {
    '0' <= c <= '9'
  }

  predicate IsUnit(c: char)
  {
    c == 's' || c == 'm' || c == 'h'
  }

  /** The number of digits `s` starts with. */
  function RunLength(s: string): (n: nat)
    ensures n <= |s| && AllDigits(s[..n])
    ensures n < |s| ==> !IsDigit(s[n])
    decreases |s|
  {
    if s != [] && IsDigit(s[0]) then
      var n := 1 + RunLength(s[1..]);
      assert s[..n] == [s[0]] + s[1..][..n - 1];
      n
    else 0
  }

  /**
   * `re.findall(r'(\d+)(s|m|h)', s)`, restricted to ASCII digits. A match starts at a
   * digit run only where the run begins: were the whole run not followed by a unit
   * letter, no shorter tail of it is either, so the scan goes on after the run.
   */
  function FindAll(s: string): (r: seq<Match>)
    ensures forall k :: 0 <= k < |r| ==> IsUnit(r[k].unit)
    decreases |s|
  {
    if s == [] then []
    else if !IsDigit(s[0]) then FindAll(s[1..])
    else
      var n := RunLength(s);
      if n < |s| && IsUnit(s[n]) then [Match(DecimalValue(s[..n]), s[n])] + FindAll(s[n + 1..])
      else FindAll(s[n..])
  }

  /** Some digit is directly followed by a unit letter. */
  predicate HasAmount(s: string)
  {
    exists i :: 0 <= i < |s| - 1 && IsDigit(s[i]) && IsUnit(s[i + 1])
  }

  lemma HasAmountShift(s: string, n: nat)
    requires n <= |s| && forall i :: 0 <= i < n && i + 1 < |s| ==> !(IsDigit(s[i]) && IsUnit(s[i + 1]))
    ensures HasAmount(s) <==> HasAmount(s[n..])
  {
    if HasAmount(s) {
      var i :| 0 <= i < |s| - 1 && IsDigit(s[i]) && IsUnit(s[i + 1]);
      assert i >= n;
      assert s[n..][i - n] == s[i] && s[n..][i - n + 1] == s[i + 1];
    }
    if HasAmount(s[n..]) {
      var i :| 0 <= i < |s[n..]| - 1 && IsDigit(s[n..][i]) && IsUnit(s[n..][i + 1]);
      assert IsDigit(s[i + n]) && IsUnit(s[i + n + 1]);
    }
  }

  /** There are matches exactly when some digit is directly followed by a unit letter. */
  lemma {:induction false} FindAllFinds(s: string)
    ensures FindAll(s) != [] <==> HasAmount(s)
    decreases |s|
  {
    if s == [] {
    } else if !IsDigit(s[0]) {
      FindAllFinds(s[1..]);
      HasAmountShift(s, 1);
    } else {
      var n := RunLength(s);
      if n < |s| && IsUnit(s[n]) {
        assert IsDigit(s[n - 1]) by { assert s[..n][n - 1] == s[n - 1]; }
      } else {
        FindAllFinds(s[n..]);
        forall i | 0 <= i < n && i + 1 < |s|
          ensures !(IsDigit(s[i]) && IsUnit(s[i + 1]))
        {
          if i + 1 < n {
            assert s[..n][i + 1] == s[i + 1];
          }
        }
        HasAmountShift(s, n);
      }
    }
  }

  /** The amount of the last match with this unit, or 0 (`timedelta`'s default). */
  function LastAmount(ms: seq<Match>, unit: char): nat
    decreases |ms|
  {
    if ms == [] then 0
    else if ms[|ms| - 1].unit == unit then ms[|ms| - 1].amount
    else LastAmount(ms[..|ms| - 1], unit)
  }

  /** The seconds the keyword arguments of the matches add up to. */
  function TotalSeconds(ms: seq<Match>): nat
  {
    LastAmount(ms, 's') + 60 * LastAmount(ms, 'm') + 3600 * LastAmount(ms, 'h')
  }

  /**
   * `timedelta(seconds=...).total_seconds() * 1e6`: the microseconds of a non-negative total
   * of seconds; `timedelta` raises once the total reaches 10^9 days.
   */
  function InMicroseconds(total: nat): (r: Result<int, TimeError>)
    ensures r.Err? <==> total >= TIMEDELTA_SECONDS_BOUND
    ensures r.Err? ==> r.error == DurationOverflow
    ensures r.Ok? ==> r.value == total * MICROSECONDS_PER_SECOND && r.value < TIMEDELTA_SECONDS_BOUND * MICROSECONDS_PER_SECOND
  {
    if total >= TIMEDELTA_SECONDS_BOUND then Err(DurationOverflow) else Ok(total * MICROSECONDS_PER_SECOND)
  }

  /** `get_timedelta`: the value in microseconds; a later amount of a unit replaces an earlier one. */
  function Timedelta(s: string): Result<int, TimeError>
  {
    var ms := FindAll(s);
    if ms == [] then Err(UnparsableTime)
    else InMicroseconds(TotalSeconds(ms))
  }

  /**
   * `get_timedelta` refuses a string in which no digit is directly followed by a unit letter,
   * and `timedelta` refuses a duration of 10^9 days or more; nothing else fails.
   */
  lemma TimedeltaFails(s: string)
    ensures Timedelta(s) == Err(UnparsableTime) <==> !HasAmount(s)
    ensures Timedelta(s) == Err(DurationOverflow) <==> HasAmount(s) && TotalSeconds(FindAll(s)) >= TIMEDELTA_SECONDS_BOUND
    ensures Timedelta(s).Err? <==> !HasAmount(s) || TotalSeconds(FindAll(s)) >= TIMEDELTA_SECONDS_BOUND
  {
    FindAllFinds(s);
  }

  function Amount(kwargs: map<string, nat>, key: string): nat
  {
    if key in kwargs then kwargs[key] else 0
  }

  /** `get_timedelta`, filling the keyword arguments of `timedelta` match by match. */
  method GetTimedelta(value: string) returns (r: Result<int, TimeError>)
    ensures r == Timedelta(value)
  {
    var matches := FindAll(value);
    if |matches| == 0 {
      return Err(UnparsableTime);
    }
    var kwargs: map<string, nat> := map[];
    var k := 0;
    while k < |matches|
      invariant 0 <= k <= |matches|
      invariant Amount(kwargs, "seconds") == LastAmount(matches[..k], 's')
      invariant Amount(kwargs, "minutes") == LastAmount(matches[..k], 'm')
      invariant Amount(kwargs, "hours") == LastAmount(matches[..k], 'h')
      decreases |matches| - k
    {
      var m := matches[k];
      if m.unit == 's' {
        kwargs := kwargs["seconds" := m.amount];
      } else if m.unit == 'm' {
        kwargs := kwargs["minutes" := m.amount];
      } else if m.unit == 'h' {
        kwargs := kwargs["hours" := m.amount];
      }
      assert matches[..k + 1][..k] == matches[..k];
      k := k + 1;
    }
    assert matches[..k] == matches;
    var total := Amount(kwargs, "seconds") + 60 * Amount(kwargs, "minutes") + 3600 * Amount(kwargs, "hours");
    if total >= TIMEDELTA_SECONDS_BOUND {
      return Err(DurationOverflow);
    }
    r := Ok(total * MICROSECONDS_PER_SECOND);
  }

  /** A rendered amount followed by a unit letter is read back as one match. */
  lemma FindAllRendered(n: nat, u: char, rest: string)
    requires IsUnit(u)
    ensures FindAll(NatToString(n) + [u] + rest) == [Match(n, u)] + FindAll(rest)
  {
    var d := NatToString(n);
    var s := d + [u] + rest;
    NatToStringRoundTrip(n);
    RunLengthOfDigits(d, [u] + rest);
    assert s == d + ([u] + rest);
    assert s[..|d|] == d && s[|d|] == u && s[|d| + 1..] == rest;
  }

  lemma {:induction false} RunLengthOfDigits(d: string, rest: string)
    requires AllDigits(d) && (rest != [] ==> !IsDigit(rest[0]))
    ensures RunLength(d + rest) == |d|
    decreases |d|
  {
    if d != [] {
      assert (d + rest)[1..] == d[1..] + rest;
      RunLengthOfDigits(d[1..], rest);
    } else {
      assert d + rest == rest;
    }
  }

  /** The value of a string with one amount of each unit, hours first. */
  lemma TimedeltaOfMatches(text: string, h: nat, m: nat, s: nat)
    requires FindAll(text) == [Match(h, 'h'), Match(m, 'm'), Match(s, 's')]
    ensures Timedelta(text) == InMicroseconds(s + 60 * m + 3600 * h)
  {
    var ms := FindAll(text);
    assert ms[..2] == [Match(h, 'h'), Match(m, 'm')] && ms[..2][..1] == [Match(h, 'h')];
    assert LastAmount(ms, 's') == s;
    assert LastAmount(ms, 'm') == m;
    assert LastAmount(ms[..2][..1], 'h') == h;
    assert LastAmount(ms[..2], 'h') == h;
    assert LastAmount(ms, 'h') == h;
  }

  function Rendering(h: nat, m: nat, s: nat): string
  {
    NatToString(h) + ['h'] + (NatToString(m) + ['m'] + (NatToString(s) + ['s'] + []))
  }

  lemma FindAllOfRendering(h: nat, m: nat, s: nat)
    ensures FindAll(Rendering(h, m, s)) == [Match(h, 'h'), Match(m, 'm'), Match(s, 's')]
  {
    var tail := NatToString(s) + ['s'] + [];
    var mid := NatToString(m) + ['m'] + tail;
    FindAllRendered(s, 's', []);
    FindAllRendered(m, 'm', tail);
    FindAllRendered(h, 'h', mid);
  }

  /**
   * `<h>h<m>m<s>s`, the hours, minutes and seconds written out, is
   * `(s + 60 m + 3600 h) * 10^6` microseconds, if that is less than 10^9 days.
   */
  lemma TimedeltaOfRendering(h: nat, m: nat, s: nat)
    ensures Timedelta(Rendering(h, m, s)) == InMicroseconds(s + 60 * m + 3600 * h)
  {
    FindAllOfRendering(h, m, s);
    TimedeltaOfMatches(Rendering(h, m, s), h, m, s);
  }

  /** The value of a string with two matches. */
  lemma TimedeltaOfTwo(text: string, x: Match, y: Match)
    requires FindAll(text) == [x, y]
    ensures Timedelta(text) == InMicroseconds(Last2(x, y, 's') + 60 * Last2(x, y, 'm') + 3600 * Last2(x, y, 'h'))
  {
    LastAmountOfTwo(x, y, 's');
    LastAmountOfTwo(x, y, 'm');
    LastAmountOfTwo(x, y, 'h');
  }

  lemma LastAmountOfTwo(x: Match, y: Match, u: char)
    ensures LastAmount([x, y], u) == Last2(x, y, u)
  {
    var ms := [x, y];
    assert ms[..1] == [x] && ms[..1][..0] == [];
    if y.unit != u {
      assert LastAmount(ms, u) == LastAmount([x], u);
      assert LastAmount([x], u) == if x.unit == u then x.amount else LastAmount([], u);
    }
  }

  /** The amount of the later of two matches that has this unit. */
  function Last2(x: Match, y: Match, u: char): nat
  {
    if y.unit == u then y.amount else if x.unit == u then x.amount else 0
  }

  /** The value of a string with one match. */
  lemma TimedeltaOfOne(text: string, x: Match)
    requires FindAll(text) == [x]
    ensures Timedelta(text) == InMicroseconds(Last2(x, x, 's') + 60 * Last2(x, x, 'm') + 3600 * Last2(x, x, 'h'))
  {
    var ms := FindAll(text);
    assert ms[..0] == [];
    assert LastAmount(ms, 's') == Last2(x, x, 's');
    assert LastAmount(ms, 'm') == Last2(x, x, 'm');
    assert LastAmount(ms, 'h') == Last2(x, x, 'h');
  }

  /** `<a><u>`: an amount and its unit written out. */
  function OneAmount(a: nat, u: char): string
  {
    NatToString(a) + [u] + []
  }

  /** `<a><u><b><v>`: two amounts and their units written out. */
  function TwoAmounts(a: nat, u: char, b: nat, v: char): string
  {
    NatToString(a) + [u] + OneAmount(b, v)
  }

  lemma FindAllOfOne(a: nat, u: char)
    requires IsUnit(u)
    ensures FindAll(OneAmount(a, u)) == [Match(a, u)]
  {
    FindAllRendered(a, u, []);
  }

  lemma FindAllOfTwo(a: nat, u: char, b: nat, v: char)
    requires IsUnit(u) && IsUnit(v)
    ensures FindAll(TwoAmounts(a, u, b, v)) == [Match(a, u), Match(b, v)]
  {
    FindAllOfOne(b, v);
    FindAllRendered(a, u, OneAmount(b, v));
  }

  /** A repeated unit keeps its last amount: `10s5s` is `5s`. */
  lemma RepeatedUnitLastWins(a: nat, b: nat, u: char)
    requires IsUnit(u)
    ensures Timedelta(TwoAmounts(a, u, b, u)) == Timedelta(OneAmount(b, u))
  {
    FindAllOfTwo(a, u, b, u);
    FindAllOfOne(b, u);
    TimedeltaOfTwo(TwoAmounts(a, u, b, u), Match(a, u), Match(b, u));
    TimedeltaOfOne(OneAmount(b, u), Match(b, u));
    Last2Repeated(Match(a, u), Match(b, u), 's');
    Last2Repeated(Match(a, u), Match(b, u), 'm');
    Last2Repeated(Match(a, u), Match(b, u), 'h');
  }

  lemma Last2Repeated(x: Match, y: Match, w: char)
    requires x.unit == y.unit
    ensures Last2(x, y, w) == Last2(y, y, w)
  {
  }

  /** Two different units may come in either order: `30m1h` is `1h30m`. */
  lemma UnitOrderIrrelevant(a: nat, u: char, b: nat, v: char)
    requires IsUnit(u) && IsUnit(v) && u != v
    ensures Timedelta(TwoAmounts(a, u, b, v)) == Timedelta(TwoAmounts(b, v, a, u))
  {
    FindAllOfTwo(a, u, b, v);
    FindAllOfTwo(b, v, a, u);
    SwappedMatches(TwoAmounts(a, u, b, v), TwoAmounts(b, v, a, u), Match(a, u), Match(b, v));
  }

  lemma SwappedMatches(t1: string, t2: string, x: Match, y: Match)
    requires FindAll(t1) == [x, y] && FindAll(t2) == [y, x] && x.unit != y.unit
    ensures Timedelta(t1) == Timedelta(t2)
  {
    TimedeltaOfTwo(t1, x, y);
    TimedeltaOfTwo(t2, y, x);
    Last2Swap(x, y, 's');
    Last2Swap(x, y, 'm');
    Last2Swap(x, y, 'h');
  }

  lemma Last2Swap(x: Match, y: Match, w: char)
    requires x.unit != y.unit
    ensures Last2(x, y, w) == Last2(y, x, w)
  {
  }

  /** Digits followed by any other character are skipped: `5x3s` is `3s`. */
  lemma StrayDigitsIgnored(d: string, c: char, rest: string)
    requires d != [] && AllDigits(d) && !IsDigit(c) && !IsUnit(c)
    ensures FindAll(d + [c] + rest) == FindAll(rest)
  {
    var s := d + [c] + rest;
    RunLengthOfDigits(d, [c] + rest);
    assert s == d + ([c] + rest);
    assert s[|d|] == c && s[|d|..] == [c] + rest && ([c] + rest)[1..] == rest;
  }

  /**
   * `<h>h<m>m` is `(60 m + 3600 h) * 10^6` microseconds, if that is less than 10^9 days; the
   * example of the help text, `1h30m`, is 5 400 000 000.
   */
  lemma HoursAndMinutes(h: nat, m: nat)
    ensures Timedelta(TwoAmounts(h, 'h', m, 'm')) == InMicroseconds(60 * m + 3600 * h)
    ensures h == 1 && m == 30 ==> Timedelta(TwoAmounts(h, 'h', m, 'm')) == Ok(5400000000)
  {
    FindAllOfTwo(h, 'h', m, 'm');
    TimedeltaOfTwo(TwoAmounts(h, 'h', m, 'm'), Match(h, 'h'), Match(m, 'm'));
  }

  /**
   * A number of hours is refused from `24000000000h` on: that is 10^9 days, one more than the
   * 999999999 days `timedelta` holds. Fewer hours are that many times 3.6 * 10^9 microseconds.
   */
  lemma HoursBound(h: nat)
    ensures Timedelta(OneAmount(h, 'h')) == if h >= 24000000000 then Err(DurationOverflow) else Ok(h * 3600000000)
  {
    FindAllOfOne(h, 'h');
    TimedeltaOfOne(OneAmount(h, 'h'), Match(h, 'h'));
  }

  /** A number without a unit cannot be parsed. */
  lemma UnitRequired()
    ensures Timedelta("90") == Err(UnparsableTime)
  {
  }
}
