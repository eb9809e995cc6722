/** The calendar aggregator `getListData` of src/app/IndexSchedulerPage.tsx:
    one chain of review dates per topic of the table of contents, staggered a
    day apart, merged into one date-keyed map of badges. */
module Scheduler {
  import opened Outcomes
  import opened Calendar
  import opened Supermemo

  /** `m[k] ?? []` */
  function Get(m: Schedule, k: string): seq<Entry> {
    if k in m then m[k] else []
  }

  /** `Object.keys(x).forEach(k => acc[k] = (acc[k] ?? []).concat(x[k]))`,
      as a value. */
  function MergeInto(acc: Schedule, x: Schedule): Schedule {
    map k | k in acc.Keys + x.Keys :: Get(acc, k) + Get(x, k)
  }

  /** The dates that some topic's map holds. */
  function AllKeys(ss: seq<Schedule>): set<string> {
    if ss == [] then {} else AllKeys(ss[..|ss| - 1]) + ss[|ss| - 1].Keys
  }

  /** The badges of date `k` of every topic, concatenated in topic order. */
  function EntriesAt(ss: seq<Schedule>, k: string): seq<Entry> {
    if ss == [] then [] else EntriesAt(ss[..|ss| - 1], k) + Get(ss[|ss| - 1], k)
  }

  /** The merged calendar, defined date by date. */
  function Merged(ss: seq<Schedule>): Schedule {
    map k | k in AllKeys(ss) :: EntriesAt(ss, k)
  }

  lemma {:induction false} EntriesAtOutside(ss: seq<Schedule>, k: string)
    requires k !in AllKeys(ss)
    ensures EntriesAt(ss, k) == []
  {
    if ss != [] {
      EntriesAtOutside(ss[..|ss| - 1], k);
    }
  }

  /** Merging one more topic into the merged calendar of the earlier ones
      gives the merged calendar of all of them. */
  lemma MergedSnoc(ss: seq<Schedule>, x: Schedule)
    ensures Merged(ss + [x]) == MergeInto(Merged(ss), x)
  {
    var ss' := ss + [x];
    assert ss'[..|ss'| - 1] == ss;
    assert AllKeys(ss') == AllKeys(ss) + x.Keys;
    forall k | k in AllKeys(ss')
      ensures EntriesAt(ss', k) == Get(Merged(ss), k) + Get(x, k)
    {
      if k !in AllKeys(ss) {
        EntriesAtOutside(ss, k);
      }
    }
  }

  /** The `forEach` of the source, one key of `x` at a time: after it, `acc`
      is `MergeInto(old acc, x)`. */
  method MergeOne(acc0: Schedule, x: Schedule) returns (acc: Schedule)
    ensures acc == MergeInto(acc0, x)
  {
    acc := acc0;
    var todo := x.Keys;
    while todo != {}
      invariant todo <= x.Keys
      invariant acc.Keys == acc0.Keys + (x.Keys - todo)
      invariant forall k :: k in acc ==> acc[k] == Get(acc0, k) + (if k in x.Keys - todo then x[k] else [])
      decreases todo
    {
      var k :| k in todo;
      acc := acc[k := Get(acc, k) + x[k]];
      todo := todo - {k};
    }
  }

  /** The `reduce` over the per-topic maps, starting from `{}`. */
  method MergeSchedules(ss: seq<Schedule>) returns (acc: Schedule)
    ensures acc == Merged(ss)
  {
    acc := map[];
    for i := 0 to |ss|
      invariant acc == Merged(ss[..i])
    {
      MergedSnoc(ss[..i], ss[i]);
      assert ss[..i + 1] == ss[..i] + [ss[i]];
      acc := MergeOne(acc, ss[i]);
    }
    assert ss[..|ss|] == ss;
  }

  /** `supermemoScheduleThree(addDays(initialDate, i), title)`: the map of
      the topic at index `i`. */
  function TopicAt(initialDate: string, i: nat, title: string, pow: Power): (r: Result<Schedule>)
    ensures Parse(initialDate).None? ==> r == Err(InvalidDate)
  {
    var titleDate := AddDays(initialDate, i);
    if titleDate.Err? then Err(titleDate.error) else ScheduleThree(titleDate.value, title, pow)
  }

  /** `toc.map((title, i) => topic(i, title))` from index `i` on, failing
      with the first error. */
  function TopicsFrom(toc: seq<string>, topic: (nat, string) -> Result<Schedule>, i: nat): (r: Result<seq<Schedule>>)
    requires i <= |toc|
    ensures r.Ok? ==> |r.value| == |toc| - i
    decreases |toc| - i
  {
    if i == |toc| then Ok([])
    else
      match topic(i, toc[i])
      case Err(e) => Err(e)
      case Ok(s) =>
        match TopicsFrom(toc, topic, i + 1)
        case Err(e) => Err(e)
        case Ok(rest) => Ok([s] + rest)
  }

  /** Element `j` of the mapped sequence is `topic(j, toc[j])`. */
  lemma {:induction false} TopicsFromElement(toc: seq<string>, topic: (nat, string) -> Result<Schedule>, i: nat, j: nat)
    requires i <= j < |toc|
    requires TopicsFrom(toc, topic, i).Ok?
    ensures topic(j, toc[j]) == Ok(TopicsFrom(toc, topic, i).value[j - i])
    decreases j - i
  {
    if j > i {
      TopicsFromElement(toc, topic, i + 1, j);
    }
  }

  /** The mapped sequence exists exactly when every topic from index `i` on
      has a map. */
  lemma {:induction false} TopicsFromSucceeds(toc: seq<string>, topic: (nat, string) -> Result<Schedule>, i: nat)
    requires i <= |toc|
    ensures TopicsFrom(toc, topic, i).Ok? <==> forall j :: i <= j < |toc| ==> topic(j, toc[j]).Ok?
    decreases |toc| - i
  {
    if i < |toc| {
      TopicsFromSucceeds(toc, topic, i + 1);
    }
  }

  /** The callback of the `map`. */
  function Topic(initialDate: string, pow: Power): (nat, string) -> Result<Schedule> {
    (i: nat, title: string) => TopicAt(initialDate, i, title, pow)
  }

  /** The per-topic maps of the whole table of contents. */
  function TopicSchedules(toc: seq<string>, initialDate: string, pow: Power): (r: Result<seq<Schedule>>)
    ensures r.Ok? ==> |r.value| == |toc|
  {
    TopicsFrom(toc, Topic(initialDate, pow), 0)
  }

  /** Every date of each topic's map carries the single success badge of
      the topic. */
  ghost predicate SingleBadges(topic: (nat, string) -> Result<Schedule>) {
    forall i: nat, title: string :: topic(i, title).Ok? ==>
      forall k :: k in topic(i, title).value ==> topic(i, title).value[k] == [Entry(Success, title)]
  }

  /** Topic `i` has a map only when the start date shifted by `i` days
      renders. */
  ghost predicate StartsOn(topic: (nat, string) -> Result<Schedule>, initialDate: string) {
    forall i: nat, title: string :: topic(i, title).Ok? ==> AddDays(initialDate, i).Ok?
  }

  /** Each topic's map has six dates. */
  ghost predicate SixDates(topic: (nat, string) -> Result<Schedule>) {
    forall i: nat, title: string :: topic(i, title).Ok? ==> |topic(i, title).value| == 6
  }

  /** The facts about one topic's map. */
  lemma TopicAtFacts(initialDate: string, i: nat, title: string, pow: Power)
    ensures TopicAt(initialDate, i, title, pow).Ok? ==>
      AddDays(initialDate, i).Ok? &&
      TopicAt(initialDate, i, title, pow) == ScheduleThree(AddDays(initialDate, i).value, title, pow)
    ensures TopicAt(initialDate, i, title, pow).Ok? ==>
      var m := TopicAt(initialDate, i, title, pow).value;
      (forall k :: k in m ==> m[k] == [Entry(Success, title)]) && (PowAtLeastOne(pow) ==> |m| == 6)
  {
    var titleDate := AddDays(initialDate, i);
    if titleDate.Ok? {
      ScheduleThreeEntries(titleDate.value, title, pow);
      if PowAtLeastOne(pow) {
        ScheduleThreeShape(titleDate.value, title, pow);
      }
    }
  }

  /** The callback of the source is well formed, and with a well-behaved
      `pow` gives six dates per topic. */
  lemma TopicWellFormed(initialDate: string, pow: Power)
    ensures SingleBadges(Topic(initialDate, pow)) && StartsOn(Topic(initialDate, pow), initialDate)
    ensures PowAtLeastOne(pow) ==> SixDates(Topic(initialDate, pow))
  {
    var topic := Topic(initialDate, pow);
    forall i: nat, title: string | topic(i, title).Ok?
      ensures AddDays(initialDate, i).Ok?
      ensures forall k :: k in topic(i, title).value ==> topic(i, title).value[k] == [Entry(Success, title)]
      ensures PowAtLeastOne(pow) ==> |topic(i, title).value| == 6
    {
      assert topic(i, title) == TopicAt(initialDate, i, title, pow);
      TopicAtFacts(initialDate, i, title, pow);
    }
  }

  /** Topic `i` of a calendar that could be built starts on a date `addDays`
      renders. */
  lemma TopicStartRenders(toc: seq<string>, initialDate: string, pow: Power, i: nat)
    requires TopicSchedules(toc, initialDate, pow).Ok? && i < |toc|
    ensures AddDays(initialDate, i).Ok?
  {
    TopicsFromElement(toc, Topic(initialDate, pow), 0, i);
    TopicWellFormed(initialDate, pow);
  }

  /** `getListData(toc, initialDate)(value)`, with `key` the queried day
      already rendered as `yyyy-MM-dd`: `[]` for an empty table of contents,
      otherwise the merged badges of that day, `None` (`undefined`) when no
      topic falls on it. */
  method GetListData(toc: seq<string>, initialDate: string, pow: Power, key: string)
    returns (r: Result<Option<seq<Entry>>>)
    ensures toc == [] ==> r == Ok(Some([]))
    ensures toc != [] && TopicSchedules(toc, initialDate, pow).Err? ==>
      r == Err(TopicSchedules(toc, initialDate, pow).error)
    ensures toc != [] && TopicSchedules(toc, initialDate, pow).Ok? ==>
      var ss := TopicSchedules(toc, initialDate, pow).value;
      r == Ok(if key in AllKeys(ss) then Some(EntriesAt(ss, key)) else None)
  {
    if |toc| == 0 {
      return Ok(Some([]));
    }
    var schedules := TopicSchedules(toc, initialDate, pow);
    if schedules.Err? {
      return Err(schedules.error);
    }
    var merged := MergeSchedules(schedules.value);
    r := Ok(if key in merged then Some(merged[key]) else None);
  }

  /** `getListData(value) ?? []`: what the calendar cell lists. */
  function CellEntries(listData: Option<seq<Entry>>): seq<Entry> {
    listData.GetOr([])
  }

  /** Topic `i` starts `i` days after the initial date, so consecutive topics
      start one day apart. */
  lemma TopicStartsStaggered(toc: seq<string>, initialDate: string, pow: Power, i: nat)
    requires TopicSchedules(toc, initialDate, pow).Ok? && i < |toc|
    ensures AddDays(initialDate, i).Ok?
    ensures Parse(AddDays(initialDate, i).value) == Some(Shift(Parse(initialDate).value, i))
    ensures i + 1 < |toc| ==> AddDays(AddDays(initialDate, i).value, 1) == AddDays(initialDate, i + 1)
  {
    TopicStartRenders(toc, initialDate, pow, i);
    AddDaysAdd(initialDate, i, 1);
  }

  /** A non-empty table of contents with a start date that does not parse is an error. */
  lemma InvalidInitialDate(toc: seq<string>, initialDate: string, pow: Power)
    requires toc != [] && Parse(initialDate).None?
    ensures TopicSchedules(toc, initialDate, pow) == Err(InvalidDate)
  {
  }

  /** Every topic callback that succeeds exactly when its last review,
      `i + span` days after day `d`, is in the four-digit years. */
  ghost predicate SucceedsWithin(topic: (nat, string) -> Result<Schedule>, d: Date, span: int)
    requires Valid(d)
  {
    forall i: nat, title {:trigger TopicWithinAt(topic, d, span, i, title)} :: TopicWithinAt(topic, d, span, i, title)
  }

  ghost predicate TopicWithinAt(topic: (nat, string) -> Result<Schedule>, d: Date, span: int, i: nat, title: string)
    requires Valid(d)
  {
    topic(i, title).Ok? <==> InRange(Shift(d, i + span))
  }

  /** For such a callback the mapped sequence exists exactly when the table
      of contents is empty or the last topic's last review is in range. */
  lemma TopicsFromWithin(toc: seq<string>, topic: (nat, string) -> Result<Schedule>, d: Date, span: int)
    requires InRange(d) && span >= 0 && SucceedsWithin(topic, d, span)
    ensures TopicsFrom(toc, topic, 0).Ok? <==> toc == [] || InRange(Shift(d, |toc| - 1 + span))
  {
    TopicsFromSucceeds(toc, topic, 0);
    if toc != [] {
      var last := |toc| - 1;
      if InRange(Shift(d, last + span)) {
        forall j | 0 <= j < |toc|
          ensures topic(j, toc[j]).Ok?
        {
          InRangeBetween(d, j + span, last + span);
          assert TopicWithinAt(topic, d, span, j, toc[j]);
        }
      } else {
        assert TopicWithinAt(topic, d, span, last, toc[last]);
      }
    }
  }

  /** Topic `i` starts `i` days after the initial date, so its map exists
      exactly when day `i + span` is in range. */
  lemma TopicAtWithin(initialDate: string, i: nat, title: string, pow: Power, span: int)
    requires Parse(initialDate).Some? && span >= 0 && SchedulesWithin(pow, span)
    ensures TopicAt(initialDate, i, title, pow).Ok? <==> InRange(Shift(Parse(initialDate).value, i + span))
  {
    var start := AddDays(initialDate, i);
    if start.Ok? {
      AddDaysThenShift(initialDate, i, span);
      assert ScheduleWithinAt(start.value, title, pow, span);
      assert TopicAt(initialDate, i, title, pow) == ScheduleThree(start.value, title, pow);
    } else {
      AddDaysPastRange(initialDate, i, span);
    }
  }

  lemma TopicWithin(initialDate: string, pow: Power, span: int)
    requires Parse(initialDate).Some? && span >= 0 && SchedulesWithin(pow, span)
    ensures SucceedsWithin(Topic(initialDate, pow), Parse(initialDate).value, span)
  {
    var topic, d := Topic(initialDate, pow), Parse(initialDate).value;
    forall i: nat, title
      ensures TopicWithinAt(topic, d, span, i, title)
    {
      TopicAtWithin(initialDate, i, title, pow, span);
    }
  }

  /** From a start date that parses, the calendar can be built exactly when
      the table of contents is empty or the last review of its last topic,
      `|toc| - 1 + span` days on, is in the four-digit years; `span` is any
      span the per-topic maps keep to, such as `ReviewSpan(pow)` for every
      `pow` bounded below by 1 (`Supermemo.ScheduleThreeWithin`). */
  lemma TopicSchedulesWithin(toc: seq<string>, initialDate: string, pow: Power, span: int)
    requires Parse(initialDate).Some? && span >= 0 && SchedulesWithin(pow, span)
    ensures TopicSchedules(toc, initialDate, pow).Ok? <==>
      toc == [] || InRange(Shift(Parse(initialDate).value, |toc| - 1 + span))
  {
    TopicWithin(initialDate, pow, span);
    TopicsFromWithin(toc, Topic(initialDate, pow), Parse(initialDate).value, span);
  }

  /** Two topics from the first of January 2023, with exponentiation that
      always gives 1: the calendar can be built, and its cells hold the six
      review days of each topic, twelve badges in all. */
  lemma TwoTopicsExample()
    ensures TopicSchedules(["A", "B"], "2023-01-01", UnitPower()).Ok?
    ensures Total(Merged(TopicSchedules(["A", "B"], "2023-01-01", UnitPower()).value)) == 12
  {
    var d := Date(2023, 1, 1);
    assert Format(d) == "2023-01-01";
    ParseFormat(d);
    ShiftYears(d, 18);
    UnitPowerWithin();
    TopicSchedulesWithin(["A", "B"], "2023-01-01", UnitPower(), 17);
    AggregateLossless(["A", "B"], "2023-01-01", UnitPower());
  }

  lemma {:induction false} AllKeysMember(ss: seq<Schedule>, k: string)
    ensures k in AllKeys(ss) <==> exists i :: 0 <= i < |ss| && k in ss[i]
  {
    if ss != [] {
      var init := ss[..|ss| - 1];
      AllKeysMember(init, k);
      if k in AllKeys(init) {
        var i :| 0 <= i < |init| && k in init[i];
        assert ss[i] == init[i];
      }
      if exists i :: 0 <= i < |ss| && k in ss[i] {
        var i :| 0 <= i < |ss| && k in ss[i];
        if i < |init| {
          assert ss[i] == init[i];
        }
      }
    }
  }

  /** Order is kept: the badges of a date from the topics before `j` come
      before those from topic `j` onwards. */
  lemma {:induction false} EntriesAtSplit(ss: seq<Schedule>, j: nat, k: string)
    requires j <= |ss|
    ensures EntriesAt(ss, k) == EntriesAt(ss[..j], k) + EntriesAt(ss[j..], k)
  {
    if j < |ss| {
      var init := ss[..|ss| - 1];
      EntriesAtSplit(init, j, k);
      assert init[..j] == ss[..j];
      var tail := ss[j..];
      assert tail[..|tail| - 1] == init[j..];
      assert tail[|tail| - 1] == ss[|ss| - 1];
    } else {
      assert ss[..j] == ss;
      assert ss[j..] == [];
    }
  }

  /** Every badge of the merged calendar comes from some topic's map. */
  lemma {:induction false} EntriesAtFrom(ss: seq<Schedule>, k: string, e: Entry)
    requires e in EntriesAt(ss, k)
    ensures exists i :: 0 <= i < |ss| && k in ss[i] && e in ss[i][k]
  {
    var init := ss[..|ss| - 1];
    if e in EntriesAt(init, k) {
      EntriesAtFrom(init, k, e);
      var i :| 0 <= i < |init| && k in init[i] && e in init[i][k];
      assert ss[i] == init[i];
    }
  }

  /** The number of badges in a calendar map. */
  ghost function Total(m: Schedule): nat
    decreases |m|
  {
    if m == map[] then 0
    else
      var k :| k in m;
      |m[k]| + Total(m - {k})
  }

  /** `Total` counts any key first. */
  lemma {:induction false} TotalRemove(m: Schedule, k: string)
    requires k in m
    ensures Total(m) == |m[k]| + Total(m - {k})
    decreases |m|
  {
    var k' :| k' in m && Total(m) == |m[k']| + Total(m - {k'});
    if k' != k {
      assert |m - {k'}| < |m| by {
        assert m.Keys == (m - {k'}).Keys + {k'};
      }
      TotalRemove(m - {k'}, k);
      assert |m - {k}| < |m| by {
        assert m.Keys == (m - {k}).Keys + {k};
      }
      TotalRemove(m - {k}, k');
      assert m - {k'} - {k} == m - {k} - {k'};
    }
  }

  /** Replacing the badges of one date changes the count by the difference. */
  lemma TotalUpdate(m: Schedule, k: string, v: seq<Entry>)
    ensures Total(m[k := v]) == Total(m) - |Get(m, k)| + |v|
  {
    TotalRemove(m[k := v], k);
    if k in m {
      TotalRemove(m, k);
      assert m[k := v] - {k} == m - {k};
    } else {
      assert m[k := v] - {k} == m;
    }
  }

  lemma SmallerWithout(m: Schedule, k: string)
    requires k in m
    ensures |m - {k}| == |m| - 1
  {
    assert m.Keys == (m - {k}).Keys + {k};
  }

  lemma MergeIntoEmpty(acc: Schedule)
    ensures MergeInto(acc, map[]) == acc
  {
    forall k | k in acc
      ensures Get(acc, k) + Get(map[], k) == acc[k]
    {
      assert Get(map[], k) == [];
    }
  }

  /** Merging a map key by key. */
  lemma MergeIntoStep(acc: Schedule, x: Schedule, k: string)
    requires k in x
    ensures MergeInto(acc, x) == MergeInto(acc[k := Get(acc, k) + x[k]], x - {k})
  {
    var acc' := acc[k := Get(acc, k) + x[k]];
    var x' := x - {k};
    assert acc.Keys + x.Keys == acc'.Keys + x'.Keys;
    forall j | j in acc.Keys + x.Keys
      ensures Get(acc, j) + Get(x, j) == Get(acc', j) + Get(x', j)
    {
      if j == k {
        assert Get(x', j) == [];
        assert Get(acc', j) + [] == Get(acc', j);
      }
    }
  }

  /** Moving one date's badges from `x` into `acc` keeps the combined count. */
  lemma TotalMove(acc: Schedule, x: Schedule, k: string)
    requires k in x
    ensures Total(acc[k := Get(acc, k) + x[k]]) + Total(x - {k}) == Total(acc) + Total(x)
  {
    TotalRemove(x, k);
    TotalUpdate(acc, k, Get(acc, k) + x[k]);
  }

  /** Merging one map into another adds their badge counts. */
  lemma {:induction false} TotalMergeInto(acc: Schedule, x: Schedule)
    ensures Total(MergeInto(acc, x)) == Total(acc) + Total(x)
    decreases |x|
  {
    if x == map[] {
      MergeIntoEmpty(acc);
    } else {
      var k :| k in x;
      SmallerWithout(x, k);
      MergeIntoStep(acc, x, k);
      TotalMergeInto(acc[k := Get(acc, k) + x[k]], x - {k});
      TotalMove(acc, x, k);
    }
  }

  /** The sum of the badge counts of the per-topic maps. */
  ghost function SumTotals(ss: seq<Schedule>): nat {
    if ss == [] then 0 else SumTotals(ss[..|ss| - 1]) + Total(ss[|ss| - 1])
  }

  /** The merge loses and invents nothing: its badge count is the sum of the
      per-topic counts. */
  lemma {:induction false} MergedTotal(ss: seq<Schedule>)
    ensures Total(Merged(ss)) == SumTotals(ss)
  {
    if ss == [] {
      assert Merged(ss) == map[];
    } else {
      var init := ss[..|ss| - 1];
      MergedTotal(init);
      MergedSnoc(init, ss[|ss| - 1]);
      assert init + [ss[|ss| - 1]] == ss;
      TotalMergeInto(Merged(init), ss[|ss| - 1]);
    }
  }

  /** A map whose every value is a single badge counts one badge per key. */
  lemma {:induction false} TotalSingletons(m: Schedule)
    requires forall k :: k in m ==> |m[k]| == 1
    ensures Total(m) == |m|
    decreases |m|
  {
    if m != map[] {
      var k :| k in m;
      TotalRemove(m, k);
      assert m.Keys == (m - {k}).Keys + {k};
      TotalSingletons(m - {k});
    }
  }

  /** With six singleton dates per topic, every topic contributes exactly six
      badges. */
  lemma SumTotalsSix(toc: seq<string>, topic: (nat, string) -> Result<Schedule>, ss: seq<Schedule>)
    requires SingleBadges(topic) && SixDates(topic)
    requires TopicsFrom(toc, topic, 0) == Ok(ss)
    ensures SumTotals(ss) == 6 * |ss|
  {
    forall i | 0 <= i < |ss|
      ensures Total(ss[i]) == 6
    {
      TopicsFromElement(toc, topic, 0, i);
      TotalSingletons(ss[i]);
    }
    SumTotalsOfSix(ss);
  }

  lemma {:induction false} SumTotalsOfSix(ss: seq<Schedule>)
    requires forall i :: 0 <= i < |ss| ==> Total(ss[i]) == 6
    ensures SumTotals(ss) == 6 * |ss|
  {
    if ss != [] {
      var init := ss[..|ss| - 1];
      assert forall i :: 0 <= i < |init| ==> init[i] == ss[i];
      SumTotalsOfSix(init);
    }
  }

  /** The merge is lossless: every date of every topic is a date of the merged
      calendar, and the merged calendar holds 6 badges per topic. */
  lemma AggregateLossless(toc: seq<string>, initialDate: string, pow: Power)
    requires PowAtLeastOne(pow)
    requires TopicSchedules(toc, initialDate, pow).Ok?
    ensures var ss := TopicSchedules(toc, initialDate, pow).value;
      (forall i, k :: 0 <= i < |ss| && k in ss[i] ==> k in Merged(ss))
      && Total(Merged(ss)) == 6 * |toc|
  {
    var ss := TopicSchedules(toc, initialDate, pow).value;
    forall i, k | 0 <= i < |ss| && k in ss[i]
      ensures k in Merged(ss)
    {
      AllKeysMember(ss, k);
    }
    MergedTotal(ss);
    TopicWellFormed(initialDate, pow);
    SumTotalsSix(toc, Topic(initialDate, pow), ss);
  }

  /** Every badge of the merged maps of well-formed topics is a success badge
      whose content is one of the titles. */
  lemma BadgesFromTitles(toc: seq<string>, topic: (nat, string) -> Result<Schedule>, k: string, e: Entry)
    requires SingleBadges(topic) && TopicsFrom(toc, topic, 0).Ok?
    requires var ss := TopicsFrom(toc, topic, 0).value;
      k in Merged(ss) && e in Merged(ss)[k]
    ensures e.kind == Success && e.content in toc
  {
    var ss := TopicsFrom(toc, topic, 0).value;
    EntriesAtFrom(ss, k, e);
    var i :| 0 <= i < |ss| && k in ss[i] && e in ss[i][k];
    TopicsFromElement(toc, topic, 0, i);
    assert ss[i][k] == [Entry(Success, toc[i])];
  }

  /** Every badge of the merged calendar is a success badge whose content is
      a title of the table of contents. */
  lemma AggregateEntries(toc: seq<string>, initialDate: string, pow: Power, k: string, e: Entry)
    requires TopicSchedules(toc, initialDate, pow).Ok?
    requires var ss := TopicSchedules(toc, initialDate, pow).value;
      k in Merged(ss) && e in Merged(ss)[k]
    ensures e.kind == Success && e.content in toc
  {
    TopicWellFormed(initialDate, pow);
    BadgesFromTitles(toc, Topic(initialDate, pow), k, e);
  }

  /** A day no topic falls on shows an empty cell. */
  lemma UnscheduledDayIsEmpty(ss: seq<Schedule>, key: string)
    requires forall i :: 0 <= i < |ss| ==> key !in ss[i]
    ensures key !in Merged(ss)
    ensures CellEntries(if key in Merged(ss) then Some(Merged(ss)[key]) else None) == []
  {
    AllKeysMember(ss, key);
  }
}
