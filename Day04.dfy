/** Day 4: guard sleep logs.  Each line is an event; sorted by time, the
    events fold into sleep intervals labelled with the guard on duty, and
    the two parts pick the sleepiest guard and minute. */
module Day04 {
  import opened Wrappers
  import opened Text
  import opened Sorting
  import opened Maxima

  datatype Action = StartShift(guard: nat) | FallAsleep | WakeUp

  datatype Event = Event(year: nat, month: nat, day: nat, hour: nat, minute: nat, action: Action)

  /** The field widths: a `u16` year and guard id, `u8` for the rest. */
  predicate InRange(e: Event) {
    && e.year <= U16_MAX && e.month <= U8_MAX && e.day <= U8_MAX && e.hour <= U8_MAX && e.minute <= U8_MAX
    && (e.action.StartShift? ==> e.action.guard <= U16_MAX)
  }

  // ---------------------------------------------------------------------
  // Event::from_str

  /** The action words after the timestamp: `Guard #id` starts a shift,
      `falls` and `wakes` the other two; any other word (`unimplemented!`),
      a missing word or a bad id is None. */
  function ParseAction(words: seq<string>): (r: Option<Action>)
    ensures r == Some(FallAsleep) <==> |words| > 0 && words[0] == "falls"
    ensures r == Some(WakeUp) <==> |words| > 0 && words[0] == "wakes"
    ensures r.Some? && r.value.StartShift? ==>
              |words| > 1 && words[0] == "Guard" && ParseUnsigned(TrimStartMatches(words[1], '#'), U16_MAX) == Some(r.value.guard)
  {
    if |words| == 0 then None
    else if words[0] == "Guard" then
      if |words| < 2 then None
      else
        match ParseUnsigned(TrimStartMatches(words[1], '#'), U16_MAX)
        case None => None
        case Some(id) => Some(StartShift(id))
    else if words[0] == "falls" then Some(FallAsleep)
    else if words[0] == "wakes" then Some(WakeUp)
    else None
  }

  /** The date word `[Y-M-D`: a `u16` year, then `u8` month and day. */
  function ParseDate(word: string): Option<(nat, nat, nat)> {
    var date := Split(TrimStartMatches(word, '['), '-');
    if |date| < 3 then None
    else
      var year := ParseUnsigned(date[0], U16_MAX);
      var month := ParseUnsigned(date[1], U8_MAX);
      var day := ParseUnsigned(date[2], U8_MAX);
      if year.None? || month.None? || day.None? then None
      else Some((year.value, month.value, day.value))
  }

  /** The time word `H:M]`: `u8` hour and minute. */
  function ParseTime(word: string): Option<(nat, nat)> {
    var time := Split(TrimEndMatches(word, ']'), ':');
    if |time| < 2 then None
    else
      var hour := ParseUnsigned(time[0], U8_MAX);
      var minute := ParseUnsigned(time[1], U8_MAX);
      if hour.None? || minute.None? then None
      else Some((hour.value, minute.value))
  }

  /** `Event::from_str`: `[Y-M-D H:M]` and an action.  A missing part
      (`unwrap`) and a failed `parse` are both None. */
  function ParseEvent(line: string): (r: Option<Event>)
    ensures r.Some? ==> InRange(r.value)
  {
    var words := SplitWhitespace(line);
    if |words| < 3 then None
    else
      var date := ParseDate(words[0]);
      var time := ParseTime(words[1]);
      var action := ParseAction(words[2..]);
      if date.None? || time.None? || action.None? then None
      else
        var (y, mo, d) := date.value;
        var (h, mi) := time.value;
        Some(Event(y, mo, d, h, mi, action.value))
  }

  /** The words of an action as the puzzle writes them. */
  function ActionWords(a: Action): seq<string> {
    match a
    case StartShift(g) => ["Guard", "#" + NatToString(g), "begins", "shift"]
    case FallAsleep => ["falls", "asleep"]
    case WakeUp => ["wakes", "up"]
  }

  function DateWord(e: Event): string {
    "[" + Join([NatToString(e.year), NatToString(e.month), NatToString(e.day)], '-')
  }

  function TimeWord(e: Event): string {
    Join([NatToString(e.hour), NatToString(e.minute)], ':') + "]"
  }

  /** A log line: `[1518-11-1 0:5] falls asleep` (no zero padding). */
  function Format(e: Event): string {
    Unwords([DateWord(e), TimeWord(e)] + ActionWords(e.action))
  }

  /** Made of digits and the punctuation of a timestamp. */
  predicate Plain(s: string) {
    forall i :: 0 <= i < |s| ==> IsDigit(s[i]) || s[i] in "[]-:#"
  }

  lemma PlainIsWord(s: string)
    requires s != [] && Plain(s)
    ensures IsWord(s)
  {
    forall i | 0 <= i < |s| ensures !IsWhitespace(s[i]) {
      assert IsDigit(s[i]) || s[i] in "[]-:#";
    }
  }

  lemma PlainConcat(a: string, b: string)
    requires Plain(a) && Plain(b)
    ensures Plain(a + b)
  {
    forall i | 0 <= i < |a + b| ensures IsDigit((a + b)[i]) || (a + b)[i] in "[]-:#" {
      if i >= |a| {
        assert (a + b)[i] == b[i - |a|];
      }
    }
  }

  lemma NumberIsPlain(n: nat)
    ensures Plain(NatToString(n)) && NatToString(n)[0] != '[' && '-' !in NatToString(n) && ':' !in NatToString(n)
  {
    NatToStringIsWord(n);
  }

  lemma JoinPlain(parts: seq<string>, sep: char)
    requires |parts| >= 1 && sep in "[]-:#"
    requires forall i :: 0 <= i < |parts| ==> Plain(parts[i])
    ensures Plain(Join(parts, sep))
    decreases |parts|
  {
    if |parts| > 1 {
      JoinPlain(parts[1..], sep);
      PlainConcat(parts[0], [sep]);
      PlainConcat(parts[0] + [sep], Join(parts[1..], sep));
    }
  }

  /** The date word splits back into its three numbers. */
  lemma DateWordIsWord(e: Event)
    ensures IsWord(DateWord(e))
  {
    var parts := [NatToString(e.year), NatToString(e.month), NatToString(e.day)];
    NumberIsPlain(e.year);
    NumberIsPlain(e.month);
    NumberIsPlain(e.day);
    JoinPlain(parts, '-');
    PlainConcat("[", Join(parts, '-'));
    PlainIsWord(DateWord(e));
  }

  lemma DateWordParses(e: Event)
    requires InRange(e)
    ensures ParseDate(DateWord(e)) == Some((e.year, e.month, e.day))
  {
    var parts := [NatToString(e.year), NatToString(e.month), NatToString(e.day)];
    NumberIsPlain(e.year);
    NumberIsPlain(e.month);
    NumberIsPlain(e.day);
    var body := Join(parts, '-');
    assert body == NatToString(e.year) + "-" + Join(parts[1..], '-');
    assert body[0] == NatToString(e.year)[0];
    assert TrimStartMatches(body, '[') == body;
    assert DateWord(e)[1..] == body;
    SplitOfJoin(parts, '-');
    ParseUnsignedOfNatToString(e.year, U16_MAX);
    ParseUnsignedOfNatToString(e.month, U8_MAX);
    ParseUnsignedOfNatToString(e.day, U8_MAX);
  }

  /** The time word splits back into its two numbers. */
  lemma TimeWordIsWord(e: Event)
    ensures IsWord(TimeWord(e))
  {
    var parts := [NatToString(e.hour), NatToString(e.minute)];
    NumberIsPlain(e.hour);
    NumberIsPlain(e.minute);
    JoinPlain(parts, ':');
    PlainConcat(Join(parts, ':'), "]");
    PlainIsWord(TimeWord(e));
  }

  lemma TimeWordParses(e: Event)
    requires InRange(e)
    ensures ParseTime(TimeWord(e)) == Some((e.hour, e.minute))
  {
    var parts := [NatToString(e.hour), NatToString(e.minute)];
    NumberIsPlain(e.hour);
    NumberIsPlain(e.minute);
    var body := Join(parts, ':');
    var m := NatToString(e.minute);
    assert parts[1..] == [m];
    assert Join(parts[1..], ':') == m;
    assert body == NatToString(e.hour) + [':'] + m;
    assert body[|body| - 1] == m[|m| - 1];
    assert IsDigit(m[|m| - 1]);
    assert TimeWord(e)[..|TimeWord(e)| - 1] == body;
    assert TrimEndMatches(body, ']') == body;
    SplitOfJoin(parts, ':');
    ParseUnsignedOfNatToString(e.hour, U8_MAX);
    ParseUnsignedOfNatToString(e.minute, U8_MAX);
  }

  lemma ActionWordsAreWords(a: Action)
    requires a.StartShift? ==> a.guard <= U16_MAX
    ensures forall i :: 0 <= i < |ActionWords(a)| ==> IsWord(ActionWords(a)[i])
  {
    var words := ActionWords(a);
    forall i | 0 <= i < |words| ensures IsWord(words[i]) {
      if a.StartShift? && i == 1 {
        GuardWordIsWord(a.guard);
      } else {
        assert Printable(words[i]);
        PrintableIsWord(words[i]);
      }
    }
  }

  lemma ActionWordsParse(a: Action)
    requires a.StartShift? ==> a.guard <= U16_MAX
    ensures forall i :: 0 <= i < |ActionWords(a)| ==> IsWord(ActionWords(a)[i])
    ensures ParseAction(ActionWords(a)) == Some(a)
  {
    ActionWordsAreWords(a);
    match a
    case StartShift(g) => GuardParses(g);
    case FallAsleep => FallsParses();
    case WakeUp => WakesParses();
  }

  lemma GuardParses(g: nat)
    requires g <= U16_MAX
    ensures ParseAction(ActionWords(StartShift(g))) == Some(StartShift(g))
  {
    var words := ActionWords(StartShift(g));
    GuardWordParses(g);
    assert words[1] == "#" + NatToString(g);
    assert ParseUnsigned(TrimStartMatches(words[1], '#'), U16_MAX) == Some(g);
    assert |words| >= 2 && words[0] == "Guard";
  }

  lemma FallsParses()
    ensures ParseAction(ActionWords(FallAsleep)) == Some(FallAsleep)
  {
    var words := ActionWords(FallAsleep);
    assert words[0] != "Guard" by { assert words[0][0] != "Guard"[0]; }
  }

  lemma WakesParses()
    ensures ParseAction(ActionWords(WakeUp)) == Some(WakeUp)
  {
    var words := ActionWords(WakeUp);
    assert words[0] != "Guard" by { assert words[0][0] != "Guard"[0]; }
    assert words[0] != "falls" by { assert words[0][0] != "falls"[0]; }
  }

  /** `#id` is one word. */
  lemma GuardWordIsWord(g: nat)
    ensures IsWord("#" + NatToString(g))
  {
    var id := NatToString(g);
    var w := "#" + id;
    NatToStringIsWord(g);
    forall i | 0 <= i < |w| ensures !IsWhitespace(w[i]) {
      if i > 0 {
        assert w[i] == id[i - 1];
      }
    }
  }

  /** `#id` trims and parses back to the id. */
  lemma GuardWordParses(g: nat)
    requires g <= U16_MAX
    ensures ParseUnsigned(TrimStartMatches("#" + NatToString(g), '#'), U16_MAX) == Some(g)
  {
    var id := NatToString(g);
    var w := "#" + id;
    NatToStringIsWord(g);
    assert id[0] in id;
    TrimStartMatchesNone(id, '#');
    assert w[0] == '#' && w[1..] == id;
    assert TrimStartMatches(w, '#') == TrimStartMatches(id, '#') == id;
    ParseUnsignedOfNatToString(g, U16_MAX);
  }

  /** Parsing inverts formatting for every event whose fields fit their
      Rust types. */
  lemma ParseFormat(e: Event)
    requires InRange(e)
    ensures ParseEvent(Format(e)) == Some(e)
  {
    var words := [DateWord(e), TimeWord(e)] + ActionWords(e.action);
    FormatSplits(e);
    DateWordParses(e);
    TimeWordParses(e);
    ActionWordsParse(e.action);
    assert words[2..] == ActionWords(e.action);
  }

  /** A formatted line splits at whitespace into exactly its words. */
  lemma FormatSplits(e: Event)
    requires e.action.StartShift? ==> e.action.guard <= U16_MAX
    ensures SplitWhitespace(Format(e)) == [DateWord(e), TimeWord(e)] + ActionWords(e.action)
  {
    var date, time, action := DateWord(e), TimeWord(e), ActionWords(e.action);
    DateWordIsWord(e);
    TimeWordIsWord(e);
    ActionWordsAreWords(e.action);
    AllWordsConcat([date, time], action);
    SplitWhitespaceOfUnwords([date, time] + action);
  }

  lemma AllWordsConcat(a: seq<string>, b: seq<string>)
    requires forall i :: 0 <= i < |a| ==> IsWord(a[i])
    requires forall i :: 0 <= i < |b| ==> IsWord(b[i])
    ensures forall i :: 0 <= i < |a + b| ==> IsWord((a + b)[i])
  {
    forall i | 0 <= i < |a + b| ensures IsWord((a + b)[i]) {
      if i >= |a| {
        assert (a + b)[i] == b[i - |a|];
      }
    }
  }

  // ---------------------------------------------------------------------
  // main: sort and the schedule fold

  /** The sort key `(year, month, day, hour, minute)`. */
  function Timestamp(e: Event): seq<int> {
    [e.year, e.month, e.day, e.hour, e.minute]
  }

  /** A sleep interval `start..end` of a guard (the `(u16, Range<u8>)`). */
  datatype Shift = Shift(guard: nat, start: nat, end: nat)

  /** The fold accumulator `(schedule, current_guard, start_sleep)`. */
  datatype Tally = Tally(schedule: seq<Shift>, guard: nat, start: nat)

  /** One step of the fold. */
  function Record(t: Tally, e: Event): Tally {
    match e.action
    case StartShift(g) => Tally(t.schedule, g, 0)
    case FallAsleep => Tally(t.schedule, t.guard, e.minute)
    case WakeUp => Tally(t.schedule + [Shift(t.guard, t.start, e.minute)], t.guard, 0)
  }

  /** The fold from `(vec![], 0, 0)` over the events in order. */
  function Fold(events: seq<Event>): Tally {
    if events == [] then Tally([], 0, 0)
    else Record(Fold(events[..|events| - 1]), events[|events| - 1])
  }

  function Schedule(events: seq<Event>): seq<Shift> {
    Fold(events).schedule
  }

  /** The guard of the latest shift start, 0 before any. */
  function OnDuty(events: seq<Event>): nat {
    if events == [] then 0
    else match events[|events| - 1].action
      case StartShift(g) => g
      case _ => OnDuty(events[..|events| - 1])
  }

  /** Where the latest sleep began: the minute of the last event if it was a
      fall asleep, and 0 otherwise (a shift start and a wake reset it). */
  function AsleepSince(events: seq<Event>): nat {
    if events != [] && events[|events| - 1].action.FallAsleep? then events[|events| - 1].minute else 0
  }

  function Wakes(events: seq<Event>): nat {
    if events == [] then 0
    else Wakes(events[..|events| - 1]) + (if events[|events| - 1].action.WakeUp? then 1 else 0)
  }

  /** The fold tracks the guard on duty and the start of the current sleep,
      and emits one interval per wake. */
  lemma {:induction false} FoldTracks(events: seq<Event>)
    ensures Fold(events).guard == OnDuty(events)
    ensures Fold(events).start == AsleepSince(events)
    ensures |Fold(events).schedule| == Wakes(events)
  {
    if events != [] {
      FoldTracks(events[..|events| - 1]);
    }
  }

  /** The fold only appends. */
  lemma {:induction false} SchedulePrefix(events: seq<Event>, k: nat)
    requires k <= |events|
    ensures Schedule(events[..k]) <= Schedule(events)
    decreases |events| - k
  {
    if k < |events| {
      var n := |events| - 1;
      assert events[..n][..k] == events[..k];
      SchedulePrefix(events[..n], k);
      assert events[..|events|] == events;
    } else {
      assert events[..k] == events;
    }
  }

  /** The wake at index `k` emits the interval at position "number of earlier
      wakes": the guard on duty, from where the sleep began to the wake
      minute (exclusive). */
  lemma ScheduleAt(events: seq<Event>, k: nat)
    requires k < |events| && events[k].action.WakeUp?
    ensures Wakes(events[..k]) < |Schedule(events)|
    ensures Schedule(events)[Wakes(events[..k])]
            == Shift(OnDuty(events[..k]), AsleepSince(events[..k]), events[k].minute)
  {
    var pre := events[..k];
    assert events[..k + 1][..k] == pre;
    FoldTracks(pre);
    SchedulePrefix(events, k + 1);
  }

  /** Every interval comes from a wake: there are exactly as many. */
  lemma ScheduleCount(events: seq<Event>)
    ensures |Schedule(events)| == Wakes(events)
  {
    FoldTracks(events);
  }

  // ---------------------------------------------------------------------
  // part1

  function Get<K>(m: map<K, nat>, k: K): nat {
    if k in m then m[k] else 0
  }

  /** The intervals of guard `g`. */
  function OfGuard(schedule: seq<Shift>, g: nat): seq<Shift> {
    if schedule == [] then []
    else (if schedule[0].guard == g then [schedule[0]] else []) + OfGuard(schedule[1..], g)
  }

  /** Total minutes asleep over the intervals. */
  function Slept(shifts: seq<Shift>): int {
    if shifts == [] then 0 else (shifts[0].end - shifts[0].start) + Slept(shifts[1..])
  }

  predicate Ordered(schedule: seq<Shift>) {
    forall i :: 0 <= i < |schedule| ==> schedule[i].start <= schedule[i].end
  }

  /** The fold of `part1` into a `HashMap` from guard to minutes asleep,
      adding `end - start` per interval; None where the `u16` subtraction
      underflows. */
  function Totals(schedule: seq<Shift>, acc: map<nat, nat>): Option<map<nat, nat>>
    decreases |schedule|
  {
    if schedule == [] then Some(acc)
    else
      var s := schedule[0];
      if s.end < s.start then None
      else Totals(schedule[1..], acc[s.guard := Get(acc, s.guard) + (s.end - s.start)])
  }

  lemma SleptCons(s: Shift, rest: seq<Shift>)
    ensures Slept([s] + rest) == (s.end - s.start) + Slept(rest)
  {
    assert ([s] + rest)[1..] == rest;
  }

  lemma OfGuardCons(s: Shift, rest: seq<Shift>, g: nat)
    ensures OfGuard([s] + rest, g) == (if s.guard == g then [s] else []) + OfGuard(rest, g)
  {
    assert ([s] + rest)[1..] == rest;
  }

  /** The totals fold succeeds exactly when no interval is reversed. */
  lemma {:induction false} TotalsDefined(schedule: seq<Shift>, acc: map<nat, nat>)
    ensures Totals(schedule, acc).Some? <==> Ordered(schedule)
    decreases |schedule|
  {
    if schedule != [] {
      var s := schedule[0];
      var rest := schedule[1..];
      assert forall i :: 0 <= i < |rest| ==> rest[i] == schedule[i + 1];
      if s.end >= s.start {
        TotalsDefined(rest, acc[s.guard := Get(acc, s.guard) + (s.end - s.start)]);
        assert Ordered(schedule) <==> Ordered(rest);
      } else {
        assert !Ordered(schedule) by { assert schedule[0].start > schedule[0].end; }
      }
    }
  }

  /** A guard gets an entry iff it has an interval (or had one already). */
  lemma {:induction false} TotalsKeys(schedule: seq<Shift>, acc: map<nat, nat>, g: nat)
    requires Totals(schedule, acc).Some?
    ensures g in Totals(schedule, acc).value <==> g in acc || exists i :: 0 <= i < |schedule| && schedule[i].guard == g
    decreases |schedule|
  {
    if schedule != [] {
      var s := schedule[0];
      var rest := schedule[1..];
      TotalsKeys(rest, acc[s.guard := Get(acc, s.guard) + (s.end - s.start)], g);
      if exists i :: 0 <= i < |rest| && rest[i].guard == g {
        var i :| 0 <= i < |rest| && rest[i].guard == g;
        assert schedule[i + 1].guard == g;
      }
      if g != s.guard && exists i :: 0 <= i < |schedule| && schedule[i].guard == g {
        var i :| 0 <= i < |schedule| && schedule[i].guard == g;
        assert rest[i - 1].guard == g;
      }
    }
  }

  /** Each entry adds what the guard slept to what it held before. */
  lemma {:induction false} TotalsValues(schedule: seq<Shift>, acc: map<nat, nat>, g: nat)
    requires Totals(schedule, acc).Some?
    ensures Get(Totals(schedule, acc).value, g) == Get(acc, g) + Slept(OfGuard(schedule, g))
    decreases |schedule|
  {
    if schedule != [] {
      var s := schedule[0];
      var rest := schedule[1..];
      TotalsValues(rest, acc[s.guard := Get(acc, s.guard) + (s.end - s.start)], g);
      assert schedule == [s] + rest;
      OfGuardCons(s, rest, g);
      if s.guard == g {
        SleptCons(s, OfGuard(rest, g));
      } else {
        assert OfGuard(schedule, g) == OfGuard(rest, g);
      }
    }
  }

  /** The guards with an interval, in order of first appearance: the order
      in which the model walks a map keyed by guard. */
  function Guards(schedule: seq<Shift>): (r: seq<nat>)
    ensures forall g :: g in r <==> exists i :: 0 <= i < |schedule| && schedule[i].guard == g
  {
    if schedule == [] then []
    else
      var init := schedule[..|schedule| - 1];
      var g := schedule[|schedule| - 1].guard;
      assert forall i :: 0 <= i < |init| ==> init[i] == schedule[i];
      Guards(init) + (if g in Guards(init) then [] else [g])
  }

  /** Number of intervals that contain `minute`. */
  function Covering(shifts: seq<Shift>, minute: nat): nat {
    if shifts == [] then 0
    else (if Covers(shifts[0], minute) then 1 else 0) + Covering(shifts[1..], minute)
  }

  /** The interval `start..end` contains `minute`. */
  predicate Covers(s: Shift, minute: nat) {
    s.start <= minute < s.end
  }

  function Minutes(): seq<nat> {
    seq(60, i => i)
  }

  /** `part1`'s two choices: a guard with the most minutes asleep, then the
      minute in `0..60` that guard is most often asleep in (both by
      `max_by_key`).  None when there is no interval (`unwrap` of an empty
      map) or an interval is reversed. */
  function Part1Choice(schedule: seq<Shift>): Option<(nat, nat)> {
    match Totals(schedule, map[])
    case None => None
    case Some(totals) =>
      var guards := Guards(schedule);
      if guards == [] then None
      else
        var target := guards[LastMax(guards, g => Get(totals, g))];
        var shifts := OfGuard(schedule, target);
        var minutes := Minutes();
        var minute := minutes[LastMax(minutes, m => Covering(shifts, m))];
        Some((target, minute))
  }

  /** `u32::from(target) * u32::from(minute)`: a `u16` times a minute below
      60 cannot overflow a `u32`. */
  function Product(choice: (nat, nat)): nat {
    choice.0 * choice.1
  }

  /** `target * minute`. */
  function Part1(schedule: seq<Shift>): Option<nat> {
    var choice := Part1Choice(schedule);
    if choice.None? then None else Some(Product(choice.value))
  }

  /** `part1` answers iff there is an interval and none is reversed. */
  lemma Part1Defined(schedule: seq<Shift>)
    ensures Part1Choice(schedule).Some? <==> schedule != [] && Ordered(schedule)
  {
    TotalsDefined(schedule, map[]);
    if schedule != [] {
      assert schedule[0].guard in Guards(schedule);
    }
  }

  /** `part1` chooses a guard who slept at least as long as every other
      guard, and a minute in `0..60` in which that guard was asleep at least
      as often as in any other. */
  lemma Part1Maximal(schedule: seq<Shift>)
    requires Part1Choice(schedule).Some?
    ensures var (g, m) := Part1Choice(schedule).value;
              && (exists i :: 0 <= i < |schedule| && schedule[i].guard == g)
              && (forall h :: Slept(OfGuard(schedule, h)) <= Slept(OfGuard(schedule, g)))
              && m < 60
              && forall m' :: 0 <= m' < 60 ==> Covering(OfGuard(schedule, g), m') <= Covering(OfGuard(schedule, g), m)
  {
    var (g, m) := Part1Choice(schedule).value;
    assert g in Guards(schedule);
    forall h ensures Slept(OfGuard(schedule, h)) <= Slept(OfGuard(schedule, g)) {
      SleptMost(schedule, h);
    }
    forall m' | 0 <= m' < 60 ensures Covering(OfGuard(schedule, g), m') <= Covering(OfGuard(schedule, g), m) {
      assert Minutes()[m'] == m';
    }
  }

  lemma SleptMost(schedule: seq<Shift>, h: nat)
    requires Part1Choice(schedule).Some?
    ensures Slept(OfGuard(schedule, h)) <= Slept(OfGuard(schedule, Part1Choice(schedule).value.0))
  {
    var totals := Totals(schedule, map[]).value;
    var guards := Guards(schedule);
    var g := Part1Choice(schedule).value.0;
    assert g == guards[LastMax(guards, g => Get(totals, g))];
    TotalsValues(schedule, map[], h);
    TotalsValues(schedule, map[], g);
    if h in guards {
      var j :| 0 <= j < |guards| && guards[j] == h;
      assert Get(totals, h) <= Get(totals, g);
    } else {
      OfGuardAbsent(schedule, h);
    }
  }

  lemma {:induction false} OfGuardAbsent(schedule: seq<Shift>, g: nat)
    requires forall i :: 0 <= i < |schedule| ==> schedule[i].guard != g
    ensures OfGuard(schedule, g) == []
  {
    if schedule != [] {
      var rest := schedule[1..];
      assert forall i :: 0 <= i < |rest| ==> rest[i] == schedule[i + 1];
      OfGuardAbsent(rest, g);
    }
  }

  lemma CoveringCons(s: Shift, rest: seq<Shift>, m: nat)
    ensures Covering([s] + rest, m) == (if Covers(s, m) then 1 else 0) + Covering(rest, m)
  {
    assert ([s] + rest)[1..] == rest;
  }

  /** Some interval of guard `g` contains minute `m`. */
  predicate Asleep(schedule: seq<Shift>, g: nat, m: nat) {
    exists i :: 0 <= i < |schedule| && schedule[i].guard == g && Covers(schedule[i], m)
  }

  /** A guard's count at a minute is positive iff one of its intervals
      contains that minute. */
  lemma {:induction false} CoveringPositive(schedule: seq<Shift>, g: nat, m: nat)
    ensures Covering(OfGuard(schedule, g), m) > 0 <==> Asleep(schedule, g, m)
  {
    if schedule != [] {
      var s := schedule[0];
      var rest := schedule[1..];
      assert schedule == [s] + rest;
      OfGuardCons(s, rest, g);
      CoveringPositive(rest, g, m);
      if s.guard == g {
        CoveringCons(s, OfGuard(rest, g), m);
      } else {
        assert OfGuard(schedule, g) == OfGuard(rest, g);
      }
      if Asleep(rest, g, m) {
        var i :| 0 <= i < |rest| && rest[i].guard == g && Covers(rest[i], m);
        assert schedule[i + 1] == rest[i];
      }
      if Asleep(schedule, g, m) {
        var i :| 0 <= i < |schedule| && schedule[i].guard == g && Covers(schedule[i], m);
        if i > 0 {
          assert rest[i - 1] == schedule[i];
        }
      }
    }
  }

  // ---------------------------------------------------------------------
  // part2

  /** One minute of `part2`'s fold: every interval containing `m` adds one
      to the entry `(guard, m)`. */
  function AddMinute(schedule: seq<Shift>, m: nat, acc: map<(nat, nat), nat>): map<(nat, nat), nat>
    decreases |schedule|
  {
    if schedule == [] then acc
    else
      var s := schedule[0];
      var acc' := if Covers(s, m) then acc[(s.guard, m) := Get(acc, (s.guard, m)) + 1] else acc;
      AddMinute(schedule[1..], m, acc')
  }

  /** The fold over minutes `0..k`. */
  function PairCounts(schedule: seq<Shift>, k: nat): map<(nat, nat), nat> {
    if k == 0 then map[] else AddMinute(schedule, k - 1, PairCounts(schedule, k - 1))
  }

  lemma {:induction false} AddMinuteCounts(schedule: seq<Shift>, m: nat, acc: map<(nat, nat), nat>, p: (nat, nat))
    ensures Get(AddMinute(schedule, m, acc), p) == Get(acc, p) + (if p.1 == m then Covering(OfGuard(schedule, p.0), m) else 0)
    ensures p in AddMinute(schedule, m, acc) <==> p in acc || (p.1 == m && Covering(OfGuard(schedule, p.0), m) > 0)
    decreases |schedule|
  {
    if schedule != [] {
      var s := schedule[0];
      var rest := schedule[1..];
      var acc' := if Covers(s, m) then acc[(s.guard, m) := Get(acc, (s.guard, m)) + 1] else acc;
      AddMinuteCounts(rest, m, acc', p);
      assert Get(acc', p) == Get(acc, p) + (if Covers(s, m) && p == (s.guard, m) then 1 else 0);
      assert p in acc' <==> p in acc || (Covers(s, m) && p == (s.guard, m));
      assert schedule == [s] + rest;
      OfGuardCons(s, rest, p.0);
      if s.guard == p.0 {
        CoveringCons(s, OfGuard(rest, p.0), m);
      } else {
        assert OfGuard(schedule, p.0) == OfGuard(rest, p.0);
      }
    }
  }

  /** After the fold over `0..k` the map holds, for each guard and minute
      below `k`, how many of the guard's intervals contain that minute, and
      has an entry exactly where that number is positive. */
  lemma {:induction false} PairCountsMeans(schedule: seq<Shift>, k: nat, p: (nat, nat))
    ensures Get(PairCounts(schedule, k), p) == if p.1 < k then Covering(OfGuard(schedule, p.0), p.1) else 0
    ensures p in PairCounts(schedule, k) <==> p.1 < k && Covering(OfGuard(schedule, p.0), p.1) > 0
  {
    if k > 0 {
      PairCountsMeans(schedule, k - 1, p);
      AddMinuteCounts(schedule, k - 1, PairCounts(schedule, k - 1), p);
    }
  }

  /** The pairs of `guards` and minutes below `k` with a positive count, minute
      by minute: the order in which the model walks the map's keys. */
  function Keys(guards: seq<nat>, k: nat, counts: map<(nat, nat), nat>): (r: seq<(nat, nat)>)
    ensures forall p :: p in r <==> p.0 in guards && p.1 < k && Get(counts, p) > 0
  {
    if k == 0 then []
    else Keys(guards, k - 1, counts) + PairsAt(guards, k - 1, counts)
  }

  function PairsAt(guards: seq<nat>, m: nat, counts: map<(nat, nat), nat>): (r: seq<(nat, nat)>)
    ensures forall p :: p in r <==> p.0 in guards && p.1 == m && Get(counts, p) > 0
  {
    if guards == [] then []
    else (if Get(counts, (guards[0], m)) > 0 then [(guards[0], m)] else []) + PairsAt(guards[1..], m, counts)
  }

  /** `part2`'s choice: a (guard, minute) entry with the greatest count
      (`max_by_key`), None when the map is empty (`unwrap`). */
  function Part2Choice(schedule: seq<Shift>): Option<(nat, nat)> {
    var counts := PairCounts(schedule, 60);
    var keys := Keys(Guards(schedule), 60, counts);
    if keys == [] then None
    else Some(keys[LastMax(keys, p => Get(counts, p))])
  }

  /** `target * minute`. */
  function Part2(schedule: seq<Shift>): Option<nat> {
    var choice := Part2Choice(schedule);
    if choice.None? then None else Some(Product(choice.value))
  }

  /** Some interval contains a minute of `0..60`. */
  predicate AnyAsleep(schedule: seq<Shift>) {
    exists i, m :: 0 <= i < |schedule| && 0 <= m < 60 && Covers(schedule[i], m)
  }

  /** `part2` answers iff some interval contains a minute of `0..60`. */
  lemma Part2Defined(schedule: seq<Shift>)
    ensures Part2Choice(schedule).Some? <==> AnyAsleep(schedule)
  {
    var counts := PairCounts(schedule, 60);
    var keys := Keys(Guards(schedule), 60, counts);
    if AnyAsleep(schedule) {
      var i, m :| 0 <= i < |schedule| && 0 <= m < 60 && Covers(schedule[i], m);
      var g := schedule[i].guard;
      assert Asleep(schedule, g, m);
      CoveringPositive(schedule, g, m);
      PairCountsMeans(schedule, 60, (g, m));
      assert (g, m) in keys;
    }
    if keys != [] {
      var (g, m) := keys[0];
      assert (g, m) in keys;
      PairCountsMeans(schedule, 60, (g, m));
      CoveringPositive(schedule, g, m);
      var i :| 0 <= i < |schedule| && schedule[i].guard == g && Covers(schedule[i], m);
    }
  }

  /** `part2` picks a guard and minute such that no guard was asleep in any
      minute more often than that guard in that minute, and that guard was
      asleep in it at least once. */
  lemma Part2Maximal(schedule: seq<Shift>)
    requires Part2Choice(schedule).Some?
    ensures var (g, m) := Part2Choice(schedule).value;
              && m < 60 && Asleep(schedule, g, m)
              && forall h, m' :: 0 <= m' < 60 ==> Covering(OfGuard(schedule, h), m') <= Covering(OfGuard(schedule, g), m)
  {
    var counts := PairCounts(schedule, 60);
    var keys := Keys(Guards(schedule), 60, counts);
    var (g, m) := Part2Choice(schedule).value;
    assert (g, m) in keys;
    PairCountsMeans(schedule, 60, (g, m));
    CoveringPositive(schedule, g, m);
    forall h, m' | 0 <= m' < 60 ensures Covering(OfGuard(schedule, h), m') <= Covering(OfGuard(schedule, g), m) {
      MaximalAt(schedule, h, m');
    }
  }

  lemma MaximalAt(schedule: seq<Shift>, h: nat, m': nat)
    requires Part2Choice(schedule).Some? && m' < 60
    ensures Covering(OfGuard(schedule, h), m') <= Covering(OfGuard(schedule, Part2Choice(schedule).value.0), Part2Choice(schedule).value.1)
  {
    var counts := PairCounts(schedule, 60);
    var keys := Keys(Guards(schedule), 60, counts);
    var (g, m) := Part2Choice(schedule).value;
    assert (g, m) in keys;
    PairCountsMeans(schedule, 60, (g, m));
    PairCountsMeans(schedule, 60, (h, m'));
    if Covering(OfGuard(schedule, h), m') > 0 {
      CoveringPositive(schedule, h, m');
      assert h in Guards(schedule);
      assert (h, m') in keys;
      var j :| 0 <= j < |keys| && keys[j] == (h, m');
    }
  }

  // ---------------------------------------------------------------------
  // main

  /** Every line parsed, or None at the first failure (`collect` into a
      `Result`). */
  function ParseAll(lines: seq<string>): (r: Option<seq<Event>>)
    ensures r.Some? <==> forall i :: 0 <= i < |lines| ==> ParseEvent(lines[i]).Some?
    ensures r.Some? ==> |r.value| == |lines| && forall i :: 0 <= i < |lines| ==> ParseEvent(lines[i]) == Some(r.value[i])
  {
    var parsed := seq(|lines|, i requires 0 <= i < |lines| => ParseEvent(lines[i]));
    assert forall i :: 0 <= i < |lines| ==> parsed[i] == ParseEvent(lines[i]);
    Collect(parsed)
  }

  /** The whole program: parse, sort by timestamp, build the schedule and
      answer both parts; None where the program would stop with an error or
      a panic. */
  function Solve(lines: seq<string>): Option<(nat, nat)> {
    match ParseAll(lines)
    case None => None
    case Some(events) => Answers(SortedSchedule(events))
  }

  /** Both parts on one schedule; None when either would panic. */
  function Answers(schedule: seq<Shift>): Option<(nat, nat)> {
    var part1 := Part1(schedule);
    var part2 := Part2(schedule);
    if part1.None? || part2.None? then None else Some((part1.value, part2.value))
  }

  /** The schedule of the events in time order. */
  function SortedSchedule(events: seq<Event>): seq<Shift> {
    Schedule(SortBy(events, Timestamp))
  }

  /** Both parts answer iff no interval is reversed and some interval
      contains a minute of the midnight hour. */
  lemma AnswersDefined(schedule: seq<Shift>)
    ensures Answers(schedule).Some? <==> Ordered(schedule) && AnyAsleep(schedule)
  {
    Part1Defined(schedule);
    Part2Defined(schedule);
    if AnyAsleep(schedule) {
      var i, m :| 0 <= i < |schedule| && 0 <= m < 60 && Covers(schedule[i], m);
    }
  }

  /** When both parts answer, the answers are their choices' products. */
  lemma AnswersValue(schedule: seq<Shift>)
    requires Answers(schedule).Some?
    ensures Part1Choice(schedule).Some? && Part2Choice(schedule).Some?
    ensures Answers(schedule).value == (Product(Part1Choice(schedule).value), Product(Part2Choice(schedule).value))
  {
  }

  /** The program answers iff every line parses and both parts answer on the
      time-ordered schedule. */
  lemma SolveMeans(lines: seq<string>)
    ensures Solve(lines).Some? <==>
              ParseAll(lines).Some? && Ordered(SortedSchedule(ParseAll(lines).value))
              && AnyAsleep(SortedSchedule(ParseAll(lines).value))
  {
    if ParseAll(lines).Some? {
      AnswersDefined(SortedSchedule(ParseAll(lines).value));
    }
  }
}
