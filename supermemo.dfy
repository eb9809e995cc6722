/** The interval estimator `supermemo2` and the one-topic schedule builder
    `supermemoScheduleThree` of src/app/Services/supermemo2.ts. */
module Supermemo {
  import opened Outcomes
  import opened Numerals
  import opened Calendar

  /** The tunable constants of the interval formula. */
  datatype Config = Config(a: real, b: real, c: real, d: real, theta: real)

  /** The default parameters of `supermemo2`. */
  const DefaultConfig := Config(6.0, -0.8, 0.28, 0.02, 0.2)

  /** `Math.pow`, left abstract: the model never evaluates it. */
  type Power = (real, real) -> real

  /** What real exponentiation guarantees and the interval bound needs: a base
      of at least 1 raised to a non-negative exponent is at least 1. */
  ghost predicate PowAtLeastOne(pow: Power) {
    forall x: real, y: real {:trigger PowAtLeastOneAt(pow, x, y)} :: PowAtLeastOneAt(pow, x, y)
  }

  /** The bound at one base and exponent; the bound is used only where a proof
      names the point explicitly. */
  ghost predicate PowAtLeastOneAt(pow: Power, x: real, y: real) {
    x >= 1.0 && y >= 0.0 ==> pow(x, y) >= 1.0
  }

  predicate ScoreInRange(x: int) {
    0 <= x <= 5
  }

  /** `history.reduce((acc, x) => acc && (0 <= x && x <= 5), true)`. */
  function InRangeFold(acc: bool, h: seq<int>): bool
    decreases |h|
  {
    if h == [] then acc else InRangeFold(acc && ScoreInRange(h[0]), h[1..])
  }

  /** The range check accepts exactly the histories whose every score is in 0..5. */
  lemma {:induction false} InRangeFoldAll(acc: bool, h: seq<int>)
    ensures InRangeFold(acc, h) <==> acc && forall i :: 0 <= i < |h| ==> ScoreInRange(h[i])
  {
    if h != [] {
      InRangeFoldAll(acc && ScoreInRange(h[0]), h[1..]);
      assert forall i :: 1 <= i < |h| ==> h[i] == h[1..][i - 1];
    }
  }

  /** `(acc, x) => x >= 3 ? acc + 1 : 0` */
  function StreakStep(acc: nat, x: int): nat {
    if x >= 3 then acc + 1 else 0
  }

  /** `history.reduce(StreakStep, acc)`, a left fold. */
  function StreakFold(acc: nat, h: seq<int>): nat
    decreases |h|
  {
    if h == [] then acc else StreakFold(StreakStep(acc, h[0]), h[1..])
  }

  /** The length of the longest suffix of `h` whose scores are all at least 3. */
  function TrailingRun(h: seq<int>): (k: nat)
    ensures k <= |h|
    ensures forall i :: |h| - k <= i < |h| ==> h[i] >= 3
    ensures k < |h| ==> h[|h| - 1 - k] < 3
  {
    if h == [] then 0
    else if h[|h| - 1] >= 3 then TrailingRun(h[..|h| - 1]) + 1
    else 0
  }

  /** Folding from the trailing run of a prefix continues it over the rest. */
  lemma {:induction false} StreakFoldExtends(p: seq<int>, h: seq<int>)
    ensures StreakFold(TrailingRun(p), h) == TrailingRun(p + h)
    decreases |h|
  {
    if h == [] {
      assert p + h == p;
    } else {
      var p' := p + [h[0]];
      assert p'[..|p'| - 1] == p;
      assert StreakStep(TrailingRun(p), h[0]) == TrailingRun(p');
      StreakFoldExtends(p', h[1..]);
      assert p' + h[1..] == p + h;
    }
  }

  /** The streak of a review history: the fold started at 0. */
  function Streak(h: seq<int>): (k: nat)
    ensures k == TrailingRun(h)
  {
    StreakFoldExtends([], h);
    assert [] + h == h;
    StreakFold(0, h)
  }

  /** The streak is the one number that is the length of a qualifying suffix
      which cannot be extended: both directions. */
  lemma StreakCharacterized(h: seq<int>, k: nat)
    ensures k == Streak(h) <==>
      k <= |h| && (forall i :: |h| - k <= i < |h| ==> h[i] >= 3) && (k < |h| ==> h[|h| - 1 - k] < 3)
  {
  }

  /** `history.reduce((acc, x) => acc + (b + c * x + d * x * x), acc)`. */
  function HistorySum(cfg: Config, acc: real, h: seq<int>): real
    decreases |h|
  {
    if h == [] then acc
    else
      var x := h[0] as real;
      HistorySum(cfg, acc + (cfg.b + cfg.c * x + cfg.d * x * x), h[1..])
  }

  /** With the default coefficients a grade of 0..5 adds between -0.8 (a
      grade of 0) and 1.1 (a grade of 5) to the sum. */
  lemma GradeTerm(x: int)
    requires ScoreInRange(x)
    ensures var t := DefaultConfig.b + DefaultConfig.c * x as real + DefaultConfig.d * x as real * x as real;
      -0.8 <= t <= 1.1
  {
    assert x == 0 || x == 1 || x == 2 || x == 3 || x == 4 || x == 5;
  }

  /** The sum moves from its start by between -0.8 and 1.1 per grade. */
  lemma {:induction false} HistorySumBounds(acc: real, h: seq<int>)
    requires forall i :: 0 <= i < |h| ==> ScoreInRange(h[i])
    ensures acc - 0.8 * |h| as real <= HistorySum(DefaultConfig, acc, h) <= acc + 1.1 * |h| as real
    decreases |h|
  {
    if h != [] {
      var x := h[0] as real;
      var t := DefaultConfig.b + DefaultConfig.c * x + DefaultConfig.d * x * x;
      GradeTerm(h[0]);
      HistorySumBounds(acc + t, h[1..]);
    }
  }

  function Max(x: real, y: real): real {
    if x >= y then x else y
  }

  /** The integer nearest to `x`, halves rounded up. */
  function RoundHalfUp(x: real): int {
    (x + 0.5).Floor
  }

  /** `|x|` in hundredths, rounded half up: the digits `toFixed(2)` prints. */
  function Hundredths(x: real): nat {
    var magnitude := if x < 0.0 then -x else x;
    var h := RoundHalfUp(magnitude * 100.0);
    assert h >= 0;
    h
  }

  /** A count of hundredths written with two fraction digits. */
  function Fixed2(h: nat): string {
    Decimal(h / 100) + "." + Padded(h % 100, 2)
  }

  /** `x.toFixed(2)` for `|x| < 1e21`, on an exact real: the sign, then
      `|x|` rounded to hundredths with two fraction digits. */
  function ToFixed2(x: real): (r: string)
    ensures |r| >= 4 && r[|r| - 3] == '.' && AllDigits(r[|r| - 2..])
    ensures r[0] == '-' <==> x < 0.0
  {
    (if x < 0.0 then "-" else "") + Fixed2(Hundredths(x))
  }

  /** `parseInt` of a `toFixed(2)` rendering truncates toward zero: it keeps
      the whole part of the rounded magnitude and the sign. */
  lemma ParseIntToFixed2(x: real)
    ensures ParseInt(ToFixed2(x)) == Some(if x < 0.0 then -(Hundredths(x) / 100) else Hundredths(x) / 100)
  {
    var h := Hundredths(x);
    var rest := "." + Padded(h % 100, 2);
    assert Fixed2(h) == Decimal(h / 100) + rest;
    if x < 0.0 {
      assert ToFixed2(x) == "-" + Decimal(h / 100) + rest;
      ParseIntNegativeDecimal(h / 100, rest);
    } else {
      assert ToFixed2(x) == Decimal(h / 100) + rest;
      ParseIntDecimal(h / 100, rest);
    }
  }

  /** A `toFixed(2)` rendering always has a point and two fraction digits, so
      it is never the short-circuit "1". */
  lemma ToFixed2NotOne(x: real)
    ensures ToFixed2(x) != "1"
  {
    var h := Hundredths(x);
    assert |Fixed2(h)| == |Decimal(h / 100)| + 3;
  }

  /** `max(1.3, 2.5 + historySum)`, where the sum runs over the whole history. */
  function Base(history: seq<int>, cfg: Config): (x: real)
    ensures x >= 1.3
  {
    Max(1.3, 2.5 + HistorySum(cfg, 0.0, history))
  }

  /** `theta * streak`. */
  function Exponent(history: seq<int>, cfg: Config): real {
    cfg.theta * (Streak(history) as real)
  }

  /** Three quarters of `a * pow(base, exponent)`, in days, before rounding. */
  function Interval(history: seq<int>, cfg: Config, pow: Power): real {
    var daysToReview := cfg.a * pow(Base(history, cfg), Exponent(history, cfg));
    daysToReview * 3.0 / 4.0
  }

  /** `supermemo2(history, a, b, c, d, theta)`: validate the history, compute
      the streak, return "1" for a streak of 0 or 1, and otherwise
      `(a * pow(max(1.3, 2.5 + historySum), theta * streak) * 3 / 4).toFixed(2)`. */
  function Supermemo2(history: seq<int>, cfg: Config, pow: Power): (r: Result<string>)
    ensures r == Err(InvalidHistory) <==> history == []
    ensures r == Err(InvalidScore) <==>
      history != [] && exists i :: 0 <= i < |history| && !ScoreInRange(history[i])
    ensures r.Ok? <==> history != [] && forall i :: 0 <= i < |history| ==> ScoreInRange(history[i])
    ensures r.Ok? ==> (r.value == "1" <==> Streak(history) <= 1)
  {
    InRangeFoldAll(true, history);
    if |history| < 1 then Err(InvalidHistory)
    else if !InRangeFold(true, history) then Err(InvalidScore)
    else
      var streak := Streak(history);
      if streak == 0 then Ok("1")
      else if streak == 1 then Ok("1")
      else
        ToFixed2NotOne(Interval(history, cfg, pow));
        Ok(ToFixed2(Interval(history, cfg, pow)))
  }

  /** With a scale of at least 6 and a power of at least 1, the rounded
      hundredths of three quarters of the interval are at least 450. */
  lemma ScaledIntervalBound(a: real, p: real)
    requires a >= 6.0 && p >= 1.0
    ensures a * p * 3.0 / 4.0 >= 4.5
    ensures Hundredths(a * p * 3.0 / 4.0) >= 450
  {
    var days := a * p;
    assert days >= 6.0 by {
      assert a * p - 6.0 == a * (p - 1.0) + (a - 6.0);
      assert a * (p - 1.0) >= 0.0;
    }
  }

  /** Under the bound on `pow`, three quarters of the formula is at least 4.5 days. */
  lemma IntervalAtLeast(history: seq<int>, cfg: Config, pow: Power)
    requires cfg.a >= 6.0 && cfg.theta >= 0.0 && PowAtLeastOne(pow)
    ensures Interval(history, cfg, pow) >= 4.5
    ensures Hundredths(Interval(history, cfg, pow)) >= 450
  {
    assert Exponent(history, cfg) >= 0.0;
    assert PowAtLeastOneAt(pow, Base(history, cfg), Exponent(history, cfg));
    ScaledIntervalBound(cfg.a, pow(Base(history, cfg), Exponent(history, cfg)));
  }

  /** A valid history with a streak of two or more is rendered from the formula. */
  lemma Supermemo2UsesFormula(history: seq<int>, cfg: Config, pow: Power)
    requires history != [] && forall i :: 0 <= i < |history| ==> ScoreInRange(history[i])
    requires Streak(history) >= 2
    ensures Supermemo2(history, cfg, pow) == Ok(ToFixed2(Interval(history, cfg, pow)))
  {
    InRangeFoldAll(true, history);
  }

  /** A streak of two or more gives an interval of at least four whole days
      under the default scale `a` (and any larger one): the base is at least
      1.3 and the exponent is non-negative, so the interval is at least
      `a * 3 / 4`. */
  lemma LongStreakInterval(history: seq<int>, cfg: Config, pow: Power)
    requires history != [] && forall i :: 0 <= i < |history| ==> ScoreInRange(history[i])
    requires Streak(history) >= 2
    requires cfg.a >= 6.0 && cfg.theta >= 0.0 && PowAtLeastOne(pow)
    ensures Supermemo2(history, cfg, pow).Ok?
    ensures ParseInt(Supermemo2(history, cfg, pow).value).Some?
    ensures ParseInt(Supermemo2(history, cfg, pow).value).value >= 4
  {
    Supermemo2UsesFormula(history, cfg, pow);
    IntervalAtLeast(history, cfg, pow);
    ParseIntToFixed2(Interval(history, cfg, pow));
  }

  /** The commented checks of the source, and the cases of a single review. */
  lemma Supermemo2Examples(pow: Power)
    ensures Supermemo2([], DefaultConfig, pow) == Err(InvalidHistory)
    ensures Supermemo2([6], DefaultConfig, pow) == Err(InvalidScore)
    ensures Supermemo2([6, 7, 3], DefaultConfig, pow) == Err(InvalidScore)
    ensures Supermemo2([0], DefaultConfig, pow) == Ok("1")
    ensures Supermemo2([3], DefaultConfig, pow) == Ok("1")
    ensures Supermemo2([3, 1, 0], DefaultConfig, pow) == Ok("1")
    ensures Supermemo2([0, 0, 0, 0, 0, 0], DefaultConfig, pow) == Ok("1")
    ensures Supermemo2([1, 1, 1, 1, 0, 3], DefaultConfig, pow) == Ok("1")
  {
    assert !ScoreInRange([6][0]);
    assert !ScoreInRange([6, 7, 3][0]);
    assert Streak([0]) == 0;
    assert Streak([3]) == 1;
    assert Streak([3, 1, 0]) == 0;
    assert Streak([0, 0, 0, 0, 0, 0]) == 0;
    assert Streak([1, 1, 1, 1, 0, 3]) == 1 by {
      assert [1, 1, 1, 1, 0, 3][..5] == [1, 1, 1, 1, 0];
    }
  }

  /** A review history with a streak of two or more (the source's "should
      return more than 1" check). */
  lemma Supermemo2LongStreakExample(pow: Power)
    requires PowAtLeastOne(pow)
    ensures ParseInt(Supermemo2([3, 1, 0, 1, 4, 5], DefaultConfig, pow).value).value > 1
  {
    var h := [3, 1, 0, 1, 4, 5];
    assert h[..5] == [3, 1, 0, 1, 4] && h[..5][..4] == [3, 1, 0, 1];
    assert Streak(h) == 2;
    LongStreakInterval(h, DefaultConfig, pow);
  }

  /** A history whose every score qualifies has a streak equal to its length. */
  lemma AllQualifyingStreak(h: seq<int>)
    requires forall i :: 0 <= i < |h| ==> h[i] >= 3
    ensures Streak(h) == |h|
  {
  }

  /** The canned histories `[3]`, `[3, 3]`, ..., `[3, 3, 3, 3, 3]`. */
  const CannedHistories: seq<seq<int>> := [[3], [3, 3], [3, 3, 3], [3, 3, 3, 3], [3, 3, 3, 3, 3]]

  /** Estimates each history in turn with the default parameters and fails
      with the first error, as evaluating the source's array literal does. */
  function EstimateAll(hs: seq<seq<int>>, pow: Power): (r: Result<seq<string>>)
    ensures r.Ok? ==> |r.value| == |hs|
    ensures r.Ok? ==> forall i :: 0 <= i < |hs| ==> Supermemo2(hs[i], DefaultConfig, pow) == Ok(r.value[i])
    ensures (forall i :: 0 <= i < |hs| ==> Supermemo2(hs[i], DefaultConfig, pow).Ok?) ==> r.Ok?
    decreases |hs|
  {
    if hs == [] then Ok([])
    else
      match Supermemo2(hs[0], DefaultConfig, pow)
      case Err(e) => Err(e)
      case Ok(interval) =>
        match EstimateAll(hs[1..], pow)
        case Err(e) => Err(e)
        case Ok(rest) => Ok([interval] + rest)
  }

  /** The five canned estimates: the first is "1"; under the bound on `pow`
      each later one parses to at least four days. */
  lemma CannedEstimates(pow: Power)
    ensures EstimateAll(CannedHistories, pow).Ok?
    ensures |EstimateAll(CannedHistories, pow).value| == 5
    ensures EstimateAll(CannedHistories, pow).value[0] == "1"
    ensures PowAtLeastOne(pow) ==> forall i :: 1 <= i < 5 ==>
      ParseInt(EstimateAll(CannedHistories, pow).value[i]).Some? &&
      ParseInt(EstimateAll(CannedHistories, pow).value[i]).value >= 4
  {
    forall i | 0 <= i < 5
      ensures Supermemo2(CannedHistories[i], DefaultConfig, pow).Ok?
      ensures Streak(CannedHistories[i]) == i + 1
    {
      AllQualifyingStreak(CannedHistories[i]);
    }
    assert Supermemo2(CannedHistories[0], DefaultConfig, pow) == Ok("1");
    if PowAtLeastOne(pow) {
      forall i | 1 <= i < 5
        ensures ParseInt(EstimateAll(CannedHistories, pow).value[i]).Some?
        ensures ParseInt(EstimateAll(CannedHistories, pow).value[i]).value >= 4
      {
        LongStreakInterval(CannedHistories[i], DefaultConfig, pow);
      }
    }
  }

  /** `parseInt(d)` as a number of days for date-fns' `add`, which treats a
      `NaN` number of days as no days. */
  function IntervalDays(interval: string): int {
    match ParseInt(interval)
    case None => 0
    case Some(n) => n
  }

  /** One step of the date chain, `addDays(lastDate, parseInt(d))`: an
      interval that does not parse repeats the last date. */
  function NextReview(last: string, interval: string): (r: Result<string>)
    ensures Parse(last).None? ==> r == Err(InvalidDate)
    ensures r.Ok? ==> Parse(r.value).Some?
  {
    AddDays(last, IntervalDays(interval))
  }

  /** The `reduce` that appends, for each interval, the next review date
      `step` computes from the last date so far; the source's chain
      instantiates `step` with `NextReview`. */
  function ChainFold(acc: seq<string>, intervals: seq<string>, step: (string, string) -> Result<string>): (r: Result<seq<string>>)
    requires acc != []
    ensures r.Ok? ==> |r.value| == |acc| + |intervals| && r.value[..|acc|] == acc
    decreases |intervals|
  {
    if intervals == [] then Ok(acc)
    else
      match step(acc[|acc| - 1], intervals[0])
      case Err(e) => Err(e)
      case Ok(next) => ChainFold(acc + [next], intervals[1..], step)
  }

  /** Each date of the chain is the step from the one before it by the
      matching interval. */
  lemma {:induction false} ChainFoldStep(acc: seq<string>, intervals: seq<string>, step: (string, string) -> Result<string>, i: nat)
    requires acc != [] && i < |intervals| && ChainFold(acc, intervals, step).Ok?
    ensures var ds := ChainFold(acc, intervals, step).value;
      step(ds[|acc| + i - 1], intervals[i]) == Ok(ds[|acc| + i])
    decreases i
  {
    var next := step(acc[|acc| - 1], intervals[0]);
    assert next.Ok?;
    var acc' := acc + [next.value];
    var r := ChainFold(acc', intervals[1..], step);
    assert ChainFold(acc, intervals, step) == r;
    assert r.value[..|acc'|] == acc';
    if i == 0 {
      assert r.value[|acc| - 1] == acc'[|acc| - 1] == acc[|acc| - 1];
      assert r.value[|acc|] == acc'[|acc|] == next.value;
    } else {
      ChainFoldStep(acc', intervals[1..], step, i - 1);
      assert intervals[1..][i - 1] == intervals[i];
    }
  }

  /** A step whose interval `parseInt` cannot read gives the last date back. */
  lemma NextReviewUnreadable(last: string, interval: string)
    requires Parse(last).Some? && ParseInt(interval).None?
    ensures NextReview(last, interval) == Ok(last)
  {
    AddDaysZero(last);
  }

  /** The review dates of one topic: `date`, then one date per canned estimate. */
  function ReviewDates(date: string, pow: Power): (r: Result<seq<string>>)
    ensures r.Ok? ==> |r.value| == 6 && r.value[0] == date
  {
    match EstimateAll(CannedHistories, pow)
    case Err(e) => Err(e)
    case Ok(intervals) => ChainFold([date], intervals, NextReview)
  }

  /** Both dates parse and the first is the earlier day. */
  ghost predicate Precedes(a: string, b: string) {
    Parse(a).Some? && Parse(b).Some? && Before(Parse(a).value, Parse(b).value)
  }

  /** Every date is strictly earlier than every later one. */
  ghost predicate StrictlyIncreasing(ds: seq<string>) {
    forall i, j :: 0 <= i < j < |ds| ==> Precedes(ds[i], ds[j])
  }

  /** Each date is strictly earlier than the next one. */
  ghost predicate IncreasingSteps(ds: seq<string>) {
    forall i :: 1 <= i < |ds| ==> Precedes(ds[i - 1], ds[i])
  }

  /** Dates that increase step by step increase throughout. */
  lemma {:induction false} StepsIncreasing(ds: seq<string>)
    requires IncreasingSteps(ds)
    ensures StrictlyIncreasing(ds)
  {
    if |ds| > 1 {
      var init := ds[..|ds| - 1];
      assert IncreasingSteps(init) by {
        forall i | 1 <= i < |init|
          ensures Precedes(init[i - 1], init[i])
        {
          assert init[i - 1] == ds[i - 1] && init[i] == ds[i];
        }
      }
      StepsIncreasing(init);
      var last := |ds| - 1;
      forall i, j | 0 <= i < j < |ds|
        ensures Precedes(ds[i], ds[j])
      {
        if j < last {
          assert ds[i] == init[i] && ds[j] == init[j];
          assert Precedes(init[i], init[j]);
        } else if i < last - 1 {
          assert ds[i] == init[i] && ds[last - 1] == init[last - 1];
          assert Precedes(init[i], init[last - 1]);
          assert Precedes(ds[last - 1], ds[last]);
          BeforeTransitive(Parse(ds[i]).value, Parse(ds[last - 1]).value, Parse(ds[last]).value);
        } else {
          assert Precedes(ds[last - 1], ds[last]);
        }
      }
    }
  }

  /** Strictly increasing dates are pairwise distinct strings, and each parses. */
  lemma IncreasingDistinct(ds: seq<string>)
    requires StrictlyIncreasing(ds) && |ds| >= 2
    ensures forall i, j :: 0 <= i < j < |ds| ==> ds[i] != ds[j]
    ensures forall i :: 0 <= i < |ds| ==> Parse(ds[i]).Some?
  {
    forall i, j | 0 <= i < j < |ds|
      ensures ds[i] != ds[j]
    {
      assert Precedes(ds[i], ds[j]);
    }
    forall i | 0 <= i < |ds|
      ensures Parse(ds[i]).Some?
    {
      if i == 0 {
        assert Precedes(ds[0], ds[1]);
      } else {
        assert Precedes(ds[0], ds[i]);
      }
    }
  }

  lemma ParseIntOne()
    ensures ParseInt("1") == Some(1)
  {
    ParseIntDecimal(1, []);
    assert Decimal(1) + [] == "1";
  }

  /** A step by a positive number of days moves to a strictly later date. */
  lemma NextReviewLater(last: string, interval: string, next: string)
    requires ParseInt(interval).Some? && ParseInt(interval).value >= 1
    requires NextReview(last, interval) == Ok(next)
    ensures Precedes(last, next)
  {
    AddDaysLater(last, ParseInt(interval).value);
  }

  /** The chain of one topic fails on a start date that does not parse. */
  lemma ReviewDatesInvalidStart(date: string, pow: Power)
    requires Parse(date).None?
    ensures ReviewDates(date, pow) == Err(InvalidDate)
  {
    CannedEstimates(pow);
    ParseIntOne();
    var intervals := EstimateAll(CannedHistories, pow).value;
    assert NextReview(date, intervals[0]) == Err(InvalidDate);
  }

  /** The chain starts at `date`, and a first interval of "1" makes its first
      step one day. */
  lemma ChainStart(date: string, intervals: seq<string>)
    requires intervals != [] && intervals[0] == "1"
    ensures ChainFold([date], intervals, NextReview).Ok? ==>
      var ds := ChainFold([date], intervals, NextReview).value;
      ds[0] == date && AddDays(ds[0], 1) == Ok(ds[1])
  {
    var r := ChainFold([date], intervals, NextReview);
    if r.Ok? {
      assert r.value[..1] == [date];
      ChainFoldStep([date], intervals, NextReview, 0);
      ParseIntOne();
    }
  }

  /** A step function that moves to a strictly later date whenever the
      interval parses to a positive number of days. */
  ghost predicate Advances(step: (string, string) -> Result<string>) {
    forall last, interval :: ParseInt(interval).Some? && ParseInt(interval).value >= 1 && step(last, interval).Ok? ==>
      Precedes(last, step(last, interval).value)
  }

  /** `NextReview` is such a step. */
  lemma NextReviewAdvances()
    ensures Advances(NextReview)
  {
    forall last, interval | ParseInt(interval).Some? && ParseInt(interval).value >= 1 && NextReview(last, interval).Ok?
      ensures Precedes(last, NextReview(last, interval).value)
    {
      NextReviewLater(last, interval, NextReview(last, interval).value);
    }
  }

  /** `ChainFoldStep` for a chain started from one date. */
  lemma ChainLinkStep(date: string, intervals: seq<string>, step: (string, string) -> Result<string>, j: nat)
    requires 1 <= j <= |intervals|
    requires ChainFold([date], intervals, step).Ok?
    ensures var ds := ChainFold([date], intervals, step).value;
      step(ds[j - 1], intervals[j - 1]) == Ok(ds[j])
  {
    var acc := [date];
    assert |acc| == 1;
    ChainFoldStep(acc, intervals, step, j - 1);
  }

  lemma AdvanceLink(step: (string, string) -> Result<string>, last: string, interval: string, next: string)
    requires Advances(step)
    requires ParseInt(interval).Some? && ParseInt(interval).value >= 1
    requires step(last, interval) == Ok(next)
    ensures Precedes(last, next)
  {
  }

  /** With every interval a positive number of days, each date of the chain
      is earlier than the next. */
  lemma ChainSteps(date: string, intervals: seq<string>, step: (string, string) -> Result<string>)
    requires Advances(step)
    requires forall i :: 0 <= i < |intervals| ==> ParseInt(intervals[i]).Some? && ParseInt(intervals[i]).value >= 1
    ensures ChainFold([date], intervals, step).Ok? ==>
      IncreasingSteps(ChainFold([date], intervals, step).value)
  {
    var r := ChainFold([date], intervals, step);
    if r.Ok? {
      var ds := r.value;
      forall j | 1 <= j < |ds|
        ensures Precedes(ds[j - 1], ds[j])
      {
        ChainLinkStep(date, intervals, step, j);
        AdvanceLink(step, ds[j - 1], intervals[j - 1], ds[j]);
      }
    }
  }

  /** A chain whose first interval is "1" and whose every interval parses to
      a positive number of days starts with a one-day step and increases
      strictly. */
  lemma ChainShape(date: string, intervals: seq<string>)
    requires intervals != [] && intervals[0] == "1"
    requires forall i :: 0 <= i < |intervals| ==> ParseInt(intervals[i]).Some? && ParseInt(intervals[i]).value >= 1
    ensures ChainFold([date], intervals, NextReview).Ok? ==>
      var ds := ChainFold([date], intervals, NextReview).value;
      |ds| == |intervals| + 1 && ds[0] == date && AddDays(ds[0], 1) == Ok(ds[1]) && StrictlyIncreasing(ds)
  {
    ChainStart(date, intervals);
    NextReviewAdvances();
    ChainSteps(date, intervals, NextReview);
    var r := ChainFold([date], intervals, NextReview);
    if r.Ok? {
      StepsIncreasing(r.value);
    }
  }

  /** The chain of one topic: exactly six dates, starting at `date`, the first
      step exactly one day (the streak of `[3]` is 1), strictly increasing. */
  lemma ReviewDatesShape(date: string, pow: Power)
    requires PowAtLeastOne(pow)
    ensures ReviewDates(date, pow).Ok? ==>
      var ds := ReviewDates(date, pow).value;
      |ds| == 6 && ds[0] == date && AddDays(ds[0], 1) == Ok(ds[1]) && StrictlyIncreasing(ds)
  {
    CannedIntervalsPositive(pow);
    ChainShape(date, EstimateAll(CannedHistories, pow).value);
  }

  /** Under the bound on `pow`, every canned estimate parses to at least one
      day, and the first is "1". */
  lemma CannedIntervalsPositive(pow: Power)
    requires PowAtLeastOne(pow)
    ensures EstimateAll(CannedHistories, pow).Ok?
    ensures var iv := EstimateAll(CannedHistories, pow).value;
      iv != [] && iv[0] == "1" &&
      forall i :: 0 <= i < |iv| ==> ParseInt(iv[i]).Some? && ParseInt(iv[i]).value >= 1
  {
    CannedEstimates(pow);
    var iv := EstimateAll(CannedHistories, pow).value;
    forall i | 0 <= i < |iv|
      ensures ParseInt(iv[i]).Some? && ParseInt(iv[i]).value >= 1
    {
      if i == 0 {
        ParseIntOne();
      }
    }
  }

  /** The total of the intervals, in days; with every interval at least one
      day it is at least their count. */
  function IntervalSum(intervals: seq<string>, days: string -> int): (n: int)
    ensures (forall i :: 0 <= i < |intervals| ==> days(intervals[i]) >= 1) ==> n >= |intervals|
    decreases |intervals|
  {
    if intervals == [] then 0 else days(intervals[0]) + IntervalSum(intervals[1..], days)
  }

  /** Intervals of at least four days each add up to at least four days per
      interval. */
  lemma {:induction false} IntervalSumAtLeastFour(intervals: seq<string>, days: string -> int)
    requires forall i :: 0 <= i < |intervals| ==> days(intervals[i]) >= 4
    ensures IntervalSum(intervals, days) >= 4 * |intervals|
    decreases |intervals|
  {
    if intervals != [] {
      var rest := intervals[1..];
      assert forall i :: 0 <= i < |rest| ==> rest[i] == intervals[i + 1];
      IntervalSumAtLeastFour(rest, days);
    }
  }

  /** A step function that moves a date that `parse` reads on by `days` of the
      interval, and gives a date `parse` reads exactly when the result is in
      the four-digit years. */
  ghost predicate ShiftsBy(step: (string, string) -> Result<string>, parse: string -> Option<Date>, days: string -> int) {
    forall last, interval {:trigger StepShifts(step, parse, days, last, interval)} ::
      StepShifts(step, parse, days, last, interval)
  }

  /** The same for one date and interval; the quantifier above is used only
      where a proof names the point explicitly. */
  ghost predicate StepShifts(step: (string, string) -> Result<string>, parse: string -> Option<Date>, days: string -> int,
                             last: string, interval: string) {
    parse(last).Some? ==>
      Valid(parse(last).value) &&
      (step(last, interval).Ok? <==> InRange(Shift(parse(last).value, days(interval)))) &&
      (step(last, interval).Ok? ==>
        parse(step(last, interval).value) == Some(Shift(parse(last).value, days(interval))))
  }

  /** `NextReview` is such a step for the canonical parser. */
  lemma NextReviewShifts()
    ensures ShiftsBy(NextReview, Parse, IntervalDays)
  {
    forall last, interval
      ensures StepShifts(NextReview, Parse, IntervalDays, last, interval)
    {
    }
  }

  /** The chain over intervals of at least one day each succeeds exactly when
      its start, moved on by the sum of the intervals, is still in the
      four-digit years; that day is then its last date. */
  lemma {:induction false} ChainFoldSucceeds(acc: seq<string>, intervals: seq<string>, step: (string, string) -> Result<string>,
                                             parse: string -> Option<Date>, days: string -> int, d: Date)
    requires ShiftsBy(step, parse, days)
    requires acc != [] && parse(acc[|acc| - 1]) == Some(d) && InRange(d)
    requires forall i :: 0 <= i < |intervals| ==> days(intervals[i]) >= 1
    ensures ChainFold(acc, intervals, step).Ok? <==> InRange(Shift(d, IntervalSum(intervals, days)))
    ensures ChainFold(acc, intervals, step).Ok? ==>
      var ds := ChainFold(acc, intervals, step).value;
      parse(ds[|ds| - 1]) == Some(Shift(d, IntervalSum(intervals, days)))
    decreases |intervals|
  {
    if intervals == [] {
      assert ChainFold(acc, intervals, step) == Ok(acc);
      assert Shift(d, IntervalSum(intervals, days)) == d;
    } else {
      var next := step(acc[|acc| - 1], intervals[0]);
      if next.Ok? {
        var longer := acc + [next.value];
        var e := Shift(d, days(intervals[0]));
        assert StepShifts(step, parse, days, acc[|acc| - 1], intervals[0]);
        assert parse(longer[|longer| - 1]) == Some(e);
        ChainFoldSucceeds(longer, intervals[1..], step, parse, days, e);
        ChainFoldContinues(acc, intervals, step, parse, days, d);
      } else {
        ChainFoldStops(acc, intervals, step, parse, days, d);
      }
    }
  }

  /** A first step that succeeds continues the chain from the next date. */
  lemma ChainFoldContinues(acc: seq<string>, intervals: seq<string>, step: (string, string) -> Result<string>,
                           parse: string -> Option<Date>, days: string -> int, d: Date)
    requires ShiftsBy(step, parse, days)
    requires acc != [] && parse(acc[|acc| - 1]) == Some(d) && InRange(d)
    requires intervals != [] && step(acc[|acc| - 1], intervals[0]).Ok?
    requires var longer := acc + [step(acc[|acc| - 1], intervals[0]).value];
      var e := Shift(d, days(intervals[0]));
      var r := ChainFold(longer, intervals[1..], step);
      (r.Ok? <==> InRange(Shift(e, IntervalSum(intervals[1..], days)))) &&
      (r.Ok? ==> parse(r.value[|r.value| - 1]) == Some(Shift(e, IntervalSum(intervals[1..], days))))
    ensures ChainFold(acc, intervals, step).Ok? <==> InRange(Shift(d, IntervalSum(intervals, days)))
    ensures ChainFold(acc, intervals, step).Ok? ==>
      var ds := ChainFold(acc, intervals, step).value;
      parse(ds[|ds| - 1]) == Some(Shift(d, IntervalSum(intervals, days)))
  {
    var n := days(intervals[0]);
    var longer := acc + [step(acc[|acc| - 1], intervals[0]).value];
    var r := ChainFold(longer, intervals[1..], step);
    assert ChainFold(acc, intervals, step) == r;
    var rest := IntervalSum(intervals[1..], days);
    assert IntervalSum(intervals, days) == n + rest;
    ShiftShift(d, n, rest);
    assert Shift(Shift(d, n), rest) == Shift(d, IntervalSum(intervals, days));
  }

  /** A first step that fails stops the chain, and then the start moved on by
      the sum of the intervals is out of range too. */
  lemma ChainFoldStops(acc: seq<string>, intervals: seq<string>, step: (string, string) -> Result<string>,
                       parse: string -> Option<Date>, days: string -> int, d: Date)
    requires ShiftsBy(step, parse, days)
    requires acc != [] && parse(acc[|acc| - 1]) == Some(d) && InRange(d)
    requires intervals != [] && step(acc[|acc| - 1], intervals[0]).Err?
    requires forall i :: 0 <= i < |intervals| ==> days(intervals[i]) >= 1
    ensures ChainFold(acc, intervals, step).Err?
    ensures !InRange(Shift(d, IntervalSum(intervals, days)))
  {
    var last, n := acc[|acc| - 1], days(intervals[0]);
    assert StepShifts(step, parse, days, last, intervals[0]);
    var total := IntervalSum(intervals, days);
    assert total == n + IntervalSum(intervals[1..], days);
    ShiftPastRange(d, n, total - n);
  }

  /** Days from a topic's start to its last review: the sum of the five
      canned intervals. */
  function ReviewSpan(pow: Power): int {
    match EstimateAll(CannedHistories, pow)
    case Err(_) => 0
    case Ok(intervals) => IntervalSum(intervals, IntervalDays)
  }

  /** Under the bound on `pow` a topic spans at least 1 + 4 * 4 days. */
  lemma ReviewSpanAtLeast(pow: Power)
    requires PowAtLeastOne(pow)
    ensures ReviewSpan(pow) >= 17
  {
    CannedEstimates(pow);
    CannedSpan(EstimateAll(CannedHistories, pow).value);
  }

  /** Intervals "1", then four of at least 4 days, span at least 17 days. */
  lemma CannedSpan(intervals: seq<string>)
    requires |intervals| == 5 && intervals[0] == "1"
    requires forall i :: 1 <= i < 5 ==> ParseInt(intervals[i]).Some? && ParseInt(intervals[i]).value >= 4
    ensures IntervalSum(intervals, IntervalDays) >= 17
  {
    var rest := intervals[1..];
    forall i | 0 <= i < |rest|
      ensures IntervalDays(rest[i]) >= 4
    {
      assert rest[i] == intervals[i + 1];
    }
    ParseIntOne();
    IntervalSumAtLeastFour(rest, IntervalDays);
    assert IntervalSum(intervals, IntervalDays) == 1 + IntervalSum(rest, IntervalDays);
  }

  /** The chain of a start date that parses succeeds exactly when its last
      review, `ReviewSpan(pow)` days on, is in the four-digit years, and that
      day is its sixth date. */
  lemma ReviewDatesSucceed(date: string, pow: Power)
    requires PowAtLeastOne(pow) && Parse(date).Some?
    ensures ReviewDates(date, pow).Ok? <==> InRange(Shift(Parse(date).value, ReviewSpan(pow)))
    ensures ReviewDates(date, pow).Ok? ==>
      |ReviewDates(date, pow).value| == 6 &&
      Parse(ReviewDates(date, pow).value[5]) == Some(Shift(Parse(date).value, ReviewSpan(pow)))
  {
    CannedIntervalsPositive(pow);
    NextReviewShifts();
    ChainFoldSucceeds([date], EstimateAll(CannedHistories, pow).value, NextReview, Parse, IntervalDays, Parse(date).value);
  }

  /** `Math.pow` replaced by the constant 1, as for a zero exponent. */
  function UnitPower(): Power {
    (x: real, y: real) => 1.0
  }

  /** With a constant power of 1 a long streak gives 4.5 days, rendered "4.50". */
  lemma UnitPowerEstimate(h: seq<int>)
    requires h != [] && forall i :: 0 <= i < |h| ==> ScoreInRange(h[i])
    requires Streak(h) >= 2
    ensures Supermemo2(h, DefaultConfig, UnitPower()) == Ok("4.50")
  {
    Supermemo2UsesFormula(h, DefaultConfig, UnitPower());
    assert Interval(h, DefaultConfig, UnitPower()) == 4.5;
    UnitPowerRendering();
  }

  lemma UnitPowerRendering()
    ensures ToFixed2(4.5) == "4.50"
  {
    assert Hundredths(4.5) == 450;
    assert Decimal(4) == "4";
    assert Padded(50, 2) == "50";
    assert Fixed2(450) == "4" + "." + "50";
  }

  /** Each canned estimate under a constant power of 1. */
  lemma UnitPowerEstimateAt(i: int)
    requires 0 <= i < 5
    ensures Supermemo2(CannedHistories[i], DefaultConfig, UnitPower()) == Ok(["1", "4.50", "4.50", "4.50", "4.50"][i])
  {
    var h := CannedHistories[i];
    AllQualifyingStreak(h);
    if i > 0 {
      UnitPowerEstimate(h);
    }
  }

  /** The five canned estimates under a constant power of 1. */
  lemma UnitPowerEstimates()
    ensures EstimateAll(CannedHistories, UnitPower()) == Ok(["1", "4.50", "4.50", "4.50", "4.50"])
  {
    var expected := ["1", "4.50", "4.50", "4.50", "4.50"];
    forall i | 0 <= i < 5
      ensures Supermemo2(CannedHistories[i], DefaultConfig, UnitPower()) == Ok(expected[i])
    {
      UnitPowerEstimateAt(i);
    }
    var intervals := EstimateAll(CannedHistories, UnitPower()).value;
    assert intervals == expected;
  }

  /** "4.50" parses as 4 days. */
  lemma ParseIntFourFifty()
    ensures ParseInt("4.50") == Some(4)
  {
    UnitPowerRendering();
    ParseIntToFixed2(4.5);
    assert Hundredths(4.5) == 450;
  }

  /** The canned estimates under a constant power of 1 add up to 17 days. */
  lemma UnitPowerSum()
    ensures IntervalSum(["1", "4.50", "4.50", "4.50", "4.50"], IntervalDays) == 17
  {
    ParseIntOne();
    ParseIntFourFifty();
    var one := ["4.50"];
    var two := ["4.50"] + one;
    var three := ["4.50"] + two;
    var four := ["4.50"] + three;
    var all := ["1"] + four;
    assert all == ["1", "4.50", "4.50", "4.50", "4.50"];
    assert one[1..] == [] && two[1..] == one && three[1..] == two && four[1..] == three && all[1..] == four;
    assert IntervalSum(one, IntervalDays) == 4;
    assert IntervalSum(two, IntervalDays) == 8;
    assert IntervalSum(three, IntervalDays) == 12;
    assert IntervalSum(four, IntervalDays) == 16;
  }

  /** With a constant power of 1 every later interval is "4.50", parsed as 4,
      so a topic spans 1 + 4 * 4 days. */
  lemma UnitPowerSpan()
    ensures PowAtLeastOne(UnitPower())
    ensures ReviewSpan(UnitPower()) == 17
  {
    UnitPowerEstimates();
    assert ReviewSpan(UnitPower()) == IntervalSum(["1", "4.50", "4.50", "4.50", "4.50"], IntervalDays);
    UnitPowerSum();
  }

  datatype EntryKind = Success

  /** One calendar badge, `{type: 'success', content: title}`. */
  datatype Entry = Entry(kind: EntryKind, content: string)

  /** A date-keyed map of badges. */
  type Schedule = map<string, seq<Entry>>

  /** The `reduce` that spreads the accumulated object and sets each date to
      the single badge of the topic. */
  function ScheduleObject(acc: Schedule, dates: seq<string>, title: string): (m: Schedule)
    ensures m.Keys == acc.Keys + (set x | x in dates)
    ensures forall k :: k in m ==> m[k] == if k in dates then [Entry(Success, title)] else acc[k]
    decreases |dates|
  {
    if dates == [] then acc
    else ScheduleObject(acc[dates[0] := [Entry(Success, title)]], dates[1..], title)
  }

  /** `supermemoScheduleThree(date, title)`. */
  function ScheduleThree(date: string, title: string, pow: Power): Result<Schedule> {
    match ReviewDates(date, pow)
    case Err(e) => Err(e)
    case Ok(dates) => Ok(ScheduleObject(map[], dates, title))
  }

  lemma {:induction false} DistinctCardinality(ds: seq<string>)
    requires forall i, j :: 0 <= i < j < |ds| ==> ds[i] != ds[j]
    ensures |set x | x in ds| == |ds|
  {
    if ds != [] {
      var init := ds[..|ds| - 1];
      DistinctCardinality(init);
      assert (set x | x in ds) == (set x | x in init) + {ds[|ds| - 1]};
      assert ds[|ds| - 1] !in (set x | x in init);
    }
  }

  /** One topic's map: exactly six date keys, the start among them, each
      holding the single badge of the topic; a start that does not parse is
      an error. */
  lemma ScheduleThreeShape(date: string, title: string, pow: Power)
    requires PowAtLeastOne(pow)
    ensures ScheduleThree(date, title, pow).Ok? ==>
      var m := ScheduleThree(date, title, pow).value;
      |m| == 6 && date in m && forall k :: k in m ==> m[k] == [Entry(Success, title)] && Parse(k).Some?
  {
    ReviewDatesShape(date, pow);
    var r := ReviewDates(date, pow);
    if r.Ok? {
      ObjectShape(r.value, title);
    }
  }

  /** The object built from six strictly increasing dates. */
  lemma ObjectShape(ds: seq<string>, title: string)
    requires |ds| == 6 && StrictlyIncreasing(ds)
    ensures var m := ScheduleObject(map[], ds, title);
      |m| == 6 && ds[0] in m && forall k :: k in m ==> m[k] == [Entry(Success, title)] && Parse(k).Some?
  {
    IncreasingDistinct(ds);
    DistinctCardinality(ds);
    var m := ScheduleObject(map[], ds, title);
    assert m.Keys == set x | x in ds;
    assert ds[0] in m;
  }

  /** One topic's map is an error when its start date does not parse. */
  lemma ScheduleThreeInvalidStart(date: string, title: string, pow: Power)
    requires Parse(date).None?
    ensures ScheduleThree(date, title, pow) == Err(InvalidDate)
  {
    ReviewDatesInvalidStart(date, pow);
  }

  /** Every date of one topic's map carries the single success badge of that
      topic. */
  lemma ScheduleThreeEntries(date: string, title: string, pow: Power)
    ensures ScheduleThree(date, title, pow).Ok? ==>
      forall k :: k in ScheduleThree(date, title, pow).value ==>
        ScheduleThree(date, title, pow).value[k] == [Entry(Success, title)]
  {
  }

  /** One topic's map from a start date that parses exists exactly when the
      last review date is in the four-digit years. */
  lemma ScheduleThreeSucceeds(date: string, title: string, pow: Power)
    requires PowAtLeastOne(pow) && Parse(date).Some?
    ensures ScheduleThree(date, title, pow).Ok? <==> InRange(Shift(Parse(date).value, ReviewSpan(pow)))
  {
    ReviewDatesSucceed(date, pow);
  }

  /** One topic's map from every start date that parses exists exactly when
      its last review, `span` days on, is in range. */
  ghost predicate SchedulesWithin(pow: Power, span: int) {
    forall date, title {:trigger ScheduleWithinAt(date, title, pow, span)} :: ScheduleWithinAt(date, title, pow, span)
  }

  /** The same at one start date and title; the quantifier above is used only
      where a proof names the point explicitly. */
  ghost predicate ScheduleWithinAt(date: string, title: string, pow: Power, span: int) {
    Parse(date).Some? ==> (ScheduleThree(date, title, pow).Ok? <==> InRange(Shift(Parse(date).value, span)))
  }

  /** Under the bound on `pow`, every topic's map keeps to `ReviewSpan(pow)`,
      which is at least 17 days. */
  lemma ScheduleThreeWithin(pow: Power)
    requires PowAtLeastOne(pow)
    ensures ReviewSpan(pow) >= 17 && SchedulesWithin(pow, ReviewSpan(pow))
  {
    ReviewSpanAtLeast(pow);
    forall date, title
      ensures ScheduleWithinAt(date, title, pow, ReviewSpan(pow))
    {
      if Parse(date).Some? {
        ScheduleThreeSucceeds(date, title, pow);
      }
    }
  }

  /** With exponentiation that always gives 1 every map spans 17 days. */
  lemma UnitPowerWithin()
    ensures PowAtLeastOne(UnitPower()) && SchedulesWithin(UnitPower(), 17)
  {
    UnitPowerSpan();
    ScheduleThreeWithin(UnitPower());
  }
}
