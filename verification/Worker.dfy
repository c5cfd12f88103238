/** The background worker (internal/worker/worker.go): one alert per machine and calendar date,
    kept by a key in the shared cache, and one daily digest per date in Korean time. */
module Worker {
  import opened Common
  import opened Sequences
  import opened Text
  import opened Calendar
  import opened Cache
  import opened Cursor
  import IntakeServer

  const KST := 9 * HOUR
  const DIGEST_HOUR := 9

  // The calendar day an instant falls on, in a zone a fixed offset ahead of UTC.
  function LocalDay(now: int, zone: int): int {
    DayOf(now + zone)
  }

  function DateText(now: int, zone: int): string {
    FormatDate(CivilOf(LocalDay(now, zone)))
  }

  function AlertKey(machine: string, date: string): string {
    "alert:machine:" + machine + ":" + date
  }

  // ----- what reaches the cache -----

  /** Increments of the request limiters, whose keys all begin with "rl:", and the alert checks of
      a worker run that began at `tick`. `at` is the clock the cache itself reads. */
  datatype Event =
    | Limit(key: string, ttl: int, at: int)
    | Alert(machine: string, tick: int, at: int)

  function OpOf(e: Event, zone: int): Op {
    match e
    case Limit(key, ttl, at) => Op.Incr("rl:" + key, ttl, at)
    case Alert(machine, tick, at) => Op.SetNX(AlertKey(machine, DateText(tick, zone)), "1", DAY, at)
  }

  function OpsOf(es: seq<Event>, zone: int): seq<Op> {
    if es == [] then [] else OpsOf(es[..|es| - 1], zone) + [OpOf(es[|es| - 1], zone)]
  }

  // The machines whose owner is notified, in order.
  function Notified(d: Data, es: seq<Event>, zone: int): seq<string> {
    if es == [] then []
    else
      var before, e := es[..|es| - 1], es[|es| - 1];
      Notified(d, before, zone)
      + Notice(After(d, OpsOf(before, zone)), e, zone)
  }

  lemma OpsSnoc(es: seq<Event>, e: Event, zone: int)
    ensures OpsOf(es + [e], zone) == OpsOf(es, zone) + [OpOf(e, zone)]
  {
    assert (es + [e])[..|es|] == es;
  }

  lemma AfterSnoc(d: Data, ops: seq<Op>, op: Op)
    ensures After(d, ops + [op]) == Apply(After(d, ops), op).0
  {
    assert (ops + [op])[..|ops|] == ops;
  }

  lemma {:induction false} AfterConcat(d: Data, a: seq<Op>, b: seq<Op>)
    ensures After(d, a + b) == After(After(d, a), b)
  {
    if b == [] {
      assert a + b == a;
    } else {
      var init, op := b[..|b| - 1], b[|b| - 1];
      AfterConcat(d, a, init);
      ConcatLast(a, b);
      AfterSnoc(d, a + init, op);
    }
  }

  lemma {:induction false} OpsConcat(a: seq<Event>, b: seq<Event>, zone: int)
    ensures OpsOf(a + b, zone) == OpsOf(a, zone) + OpsOf(b, zone)
  {
    if b == [] {
      assert a + b == a;
    } else {
      var init, e := b[..|b| - 1], b[|b| - 1];
      OpsConcat(a, init, zone);
      ConcatLast(a, b);
      SplitLast(b);
      Associative(OpsOf(a, zone), OpsOf(init, zone), [OpOf(e, zone)]);
      OpsSnoc(a + init, e, zone);
    }
  }

  // What one event adds to the notices.
  function Notice(d: Data, e: Event, zone: int): seq<string> {
    if e.Alert? && Apply(d, OpOf(e, zone)).1 == Stored(true) then [e.machine] else []
  }

  lemma NotifiedSnoc(d: Data, es: seq<Event>, e: Event, zone: int)
    ensures Notified(d, es + [e], zone) == Notified(d, es, zone) + Notice(After(d, OpsOf(es, zone)), e, zone)
    ensures After(d, OpsOf(es + [e], zone)) == Apply(After(d, OpsOf(es, zone)), OpOf(e, zone)).0
  {
    assert (es + [e])[..|es|] == es;
    OpsSnoc(es, e, zone);
    AfterSnoc(d, OpsOf(es, zone), OpOf(e, zone));
  }

  lemma OneEvent(d: Data, e: Event, zone: int)
    ensures After(d, OpsOf([e], zone)) == Apply(d, OpOf(e, zone)).0
    ensures Notified(d, [e], zone) == Notice(d, e, zone)
  {
    NotifiedSnoc(d, [], e, zone);
    assert [] + [e] == [e] && [] + Notice(d, e, zone) == Notice(d, e, zone);
  }

  lemma AfterEvents(d: Data, a: seq<Event>, b: seq<Event>, zone: int)
    ensures After(d, OpsOf(a + b, zone)) == After(After(d, OpsOf(a, zone)), OpsOf(b, zone))
  {
    OpsConcat(a, b, zone);
    AfterConcat(d, OpsOf(a, zone), OpsOf(b, zone));
  }

  /** Runs can be cut anywhere: what a tick notifies depends only on the cache it finds. */
  lemma {:induction false} NotifiedConcat(d: Data, a: seq<Event>, b: seq<Event>, zone: int)
    ensures Notified(d, a + b, zone) == Notified(d, a, zone) + Notified(After(d, OpsOf(a, zone)), b, zone)
  {
    var s := After(d, OpsOf(a, zone));
    if b == [] {
      assert a + b == a;
    } else {
      var init, e := b[..|b| - 1], b[|b| - 1];
      NotifiedConcat(d, a, init, zone);
      AfterEvents(d, a, init, zone);
      ConcatLast(a, b);
      SplitLast(b);
      NotifiedSnoc(d, a + init, e, zone);
      NotifiedSnoc(s, init, e, zone);
      Associative(Notified(d, a, zone), Notified(s, init, zone), Notice(After(s, OpsOf(init, zone)), e, zone));
    }
  }

  // A machine at or above the threshold, whether the cache answers, and its clock then.
  datatype Check = Check(machine: string, at: int, cacheOk: bool)

  // One turn of the ticker loop and what the database, the media store and the notifier answer.
  datatype Tick = Tick(now: int, checks: seq<Check>, batch: seq<IntakeServer.Expired>, digestOk: bool)

  // A machine is passed over when the cache fails.
  function EventOf(c: Check, now: int): seq<Event> {
    if c.cacheOk then [Alert(c.machine, now, c.at)] else []
  }

  function EventsOf(checks: seq<Check>, now: int): seq<Event> {
    if checks == [] then [] else EventsOf(checks[..|checks| - 1], now) + EventOf(checks[|checks| - 1], now)
  }

  class Worker {
    const memory: Memory
    const server: IntakeServer.Server
    const zone: int
    var notices: seq<string>

    constructor (m: Memory, s: IntakeServer.Server, z: int)
      ensures memory == m && server == s && zone == z && notices == []
    {
      memory, server, zone, notices := m, s, z, [];
    }

    /** One pass over the machines at or above the threshold. A notice that fails to go out is
        not tried again: the key is already taken. */
    method CheckMachineAlerts(checks: seq<Check>, now: int)
      modifies this, memory
      ensures memory.data == After(old(memory.data), OpsOf(EventsOf(checks, now), zone))
      ensures notices == old(notices) + Notified(old(memory.data), EventsOf(checks, now), zone)
    {
      for i := 0 to |checks|
        invariant memory.data == After(old(memory.data), OpsOf(EventsOf(checks[..i], now), zone))
        invariant notices == old(notices) + Notified(old(memory.data), EventsOf(checks[..i], now), zone)
      {
        ghost var before, one := EventsOf(checks[..i], now), EventOf(checks[i], now);
        assert checks[..i + 1][..i] == checks[..i];
        AfterEvents(old(memory.data), before, one, zone);
        NotifiedConcat(old(memory.data), before, one, zone);
        Associative(old(notices), Notified(old(memory.data), before, zone), Notified(memory.data, one, zone));
        var sent := CheckOne(checks[i], now);
        notices := notices + sent;
      }
      assert checks[..|checks|] == checks;
    }

    method CheckOne(c: Check, now: int) returns (sent: seq<string>)
      modifies memory
      ensures memory.data == After(old(memory.data), OpsOf(EventOf(c, now), zone))
      ensures sent == Notified(old(memory.data), EventOf(c, now), zone)
    {
      if !c.cacheOk {
        return [];
      }
      OneEvent(memory.data, Alert(c.machine, now, c.at), zone);
      var isNew := memory.SetNX(AlertKey(c.machine, DateText(now, zone)), "1", DAY, c.at);
      sent := if isNew then [c.machine] else [];
    }

    method AlertAndPurge(t: Tick)
      modifies this, memory, server
      ensures memory.data == After(old(memory.data), OpsOf(EventsOf(t.checks, t.now), zone))
      ensures notices == old(notices) + Notified(old(memory.data), EventsOf(t.checks, t.now), zone)
      ensures server.Value() == IntakeServer.PurgeAlone(old(server.Value()), t.batch)
    {
      CheckMachineAlerts(t.checks, t.now);
      var _, _ := server.PurgeExpiredPhotos(t.batch);
    }

    /** The ticker loop: alerts, the purge, then the digest if it is due. `digests` are the days
        sent. */
    method Run(ticks: seq<Tick>) returns (digests: seq<int>)
      modifies this, memory, server
      ensures digests == DigestDays(ticks)
      ensures memory.data == After(old(memory.data), OpsOf(AllEvents(ticks), zone))
      ensures notices == old(notices) + Notified(old(memory.data), AllEvents(ticks), zone)
      ensures server.Value() == PurgeAll(old(server.Value()), ticks)
    {
      digests := [];
      var lastDigest := "";
      for i := 0 to |ticks|
        invariant digests == DigestDays(ticks[..i]) && lastDigest == LastDigest(ticks[..i])
        invariant memory.data == After(old(memory.data), OpsOf(AllEvents(ticks[..i]), zone))
        invariant notices == old(notices) + Notified(old(memory.data), AllEvents(ticks[..i]), zone)
        invariant server.Value() == PurgeAll(old(server.Value()), ticks[..i])
      {
        var t := ticks[i];
        TurnAdds(old(memory.data), old(notices), ticks, i, zone);
        AlertAndPurge(t);
        if HourOf(t.now) >= DIGEST_HOUR && lastDigest != DateText(t.now, KST) {
          if t.digestOk {
            digests := digests + [DayBefore(t.now)];
            lastDigest := DateText(t.now, KST);
          }
        }
        TurnDigests(ticks, i);
      }
      assert ticks[..|ticks|] == ticks;
    }
  }

  // What one more turn adds to the cache, the notices and the purged rows.
  lemma TurnAdds(d: Data, notices: seq<string>, ticks: seq<Tick>, i: nat, zone: int)
    requires i < |ticks|
    ensures var before, more := AllEvents(ticks[..i]), EventsOf(ticks[i].checks, ticks[i].now);
            var d1 := After(d, OpsOf(before, zone));
            && After(d, OpsOf(AllEvents(ticks[..i + 1]), zone)) == After(d1, OpsOf(more, zone))
            && notices + Notified(d, AllEvents(ticks[..i + 1]), zone)
               == (notices + Notified(d, before, zone)) + Notified(d1, more, zone)
    ensures forall s :: PurgeAll(s, ticks[..i + 1]) == IntakeServer.PurgeAlone(PurgeAll(s, ticks[..i]), ticks[i].batch)
  {
    var before, more := AllEvents(ticks[..i]), EventsOf(ticks[i].checks, ticks[i].now);
    SplitPrefix(ticks, i + 1);
    AfterEvents(d, before, more, zone);
    NotifiedConcat(d, before, more, zone);
    Associative(notices, Notified(d, before, zone), Notified(After(d, OpsOf(before, zone)), more, zone));
  }

  lemma TurnDigests(ticks: seq<Tick>, i: nat)
    requires i < |ticks|
    ensures var last, t := LastDigest(ticks[..i]), ticks[i];
            var sends := Due(last, t.now) && t.digestOk;
            && DigestDays(ticks[..i + 1]) == DigestDays(ticks[..i]) + (if sends then [DayBefore(t.now)] else [])
            && LastDigest(ticks[..i + 1]) == if sends then DateText(t.now, KST) else last
  {
    SplitPrefix(ticks, i + 1);
  }

  function AllEvents(ticks: seq<Tick>): seq<Event> {
    if ticks == [] then []
    else
      var t := ticks[|ticks| - 1];
      AllEvents(ticks[..|ticks| - 1]) + EventsOf(t.checks, t.now)
  }

  /** A tick's events are the checks whose cache answers, each as the check of its machine at the
      tick's date, and as many. */
  lemma {:induction false} EventsAre(checks: seq<Check>, now: int)
    ensures forall e :: e in EventsOf(checks, now) <==> exists c :: c in checks && c.cacheOk && e == Alert(c.machine, now, c.at)
    ensures |EventsOf(checks, now)| == |Places(checks, (c: Check) => c.cacheOk)|
  {
    EventCount(checks, now);
    if checks != [] {
      var n := |checks| - 1;
      EventsAre(checks[..n], now);
      SplitLast(checks);
      EventsSnoc(checks[..n], checks[n], now);
    }
  }

  lemma {:induction false} EventCount(checks: seq<Check>, now: int)
    ensures |EventsOf(checks, now)| == |Places(checks, (c: Check) => c.cacheOk)|
  {
    if checks != [] {
      EventCount(checks[..|checks| - 1], now);
      PlacesSnoc(checks, (c: Check) => c.cacheOk);
    }
  }

  lemma EventsSnoc(checks: seq<Check>, c: Check, now: int)
    requires forall e :: e in EventsOf(checks, now) <==> exists x :: x in checks && x.cacheOk && e == Alert(x.machine, now, x.at)
    ensures forall e :: e in EventsOf(checks + [c], now) <==>
                        exists x :: x in checks + [c] && x.cacheOk && e == Alert(x.machine, now, x.at)
  {
    TakeSnoc(checks, c);
    assert forall x :: x in checks + [c] <==> x in checks || x == c;
    assert EventsOf(checks + [c], now) == EventsOf(checks, now) + EventOf(c, now);
  }

  // The check is one of the run's, and the cache answered it.
  ghost predicate Asked(ticks: seq<Tick>, e: Event) {
    exists t, c :: t in ticks && c in t.checks && c.cacheOk && e == Alert(c.machine, t.now, c.at)
  }

  /** The events of a run are the answered checks of its ticks and nothing else. */
  lemma {:induction false} AllEventsAre(ticks: seq<Tick>)
    ensures forall e :: e in AllEvents(ticks) <==> Asked(ticks, e)
  {
    if ticks != [] {
      var init, t := ticks[..|ticks| - 1], ticks[|ticks| - 1];
      AllEventsAre(init);
      EventsAre(t.checks, t.now);
      SplitLast(ticks);
      assert forall x :: x in ticks <==> x in init || x == t;
      forall e
        ensures e in AllEvents(ticks) <==> Asked(ticks, e)
      {
        AskedLast(init, t, e);
      }
    }
  }

  lemma AskedLast(init: seq<Tick>, t: Tick, e: Event)
    ensures Asked(init + [t], e) <==>
            Asked(init, e) || exists c :: c in t.checks && c.cacheOk && e == Alert(c.machine, t.now, c.at)
  {
    assert forall x :: x in init + [t] <==> x in init || x == t;
  }

  function PurgeAll(d: IntakeServer.Desk, ticks: seq<Tick>): IntakeServer.Desk {
    if ticks == [] then d else IntakeServer.PurgeAlone(PurgeAll(d, ticks[..|ticks| - 1]), ticks[|ticks| - 1].batch)
  }

  // ----- keys tell machines and dates apart -----

  lemma YearText(y: nat)
    ensures AllDigits(Year4(y)) && Year4(y) != "" && Value(Year4(y)) == y
  {
    if y < 10000 {
      FourDigits(y);
    } else {
      DecimalValue(y);
    }
  }

  lemma FourDigits(y: nat)
    requires y < 10000
    ensures Value(Padded(y, 4)) == y
  {
    assert Pow10(4) == 10000;
    PaddedValue(y, 4);
  }

  lemma YearsDiffer(y: int, z: int)
    requires FormatYear(y) == FormatYear(z)
    ensures y == z
  {
    var m: nat, n: nat := if y < 0 then -y else y, if z < 0 then -z else z;
    YearText(m);
    YearText(n);
    assert FormatYear(y)[0] == '-' <==> y < 0;
    assert FormatYear(z)[0] == '-' <==> z < 0;
    if y < 0 {
      assert FormatYear(y)[1..] == Year4(m) && FormatYear(z)[1..] == Year4(n);
    }
  }

  lemma TwoDigits(a: nat, b: nat)
    requires a < 100 && b < 100 && Padded(a, 2) == Padded(b, 2)
    ensures a == b
  {
    assert Pow10(2) == 100;
    PaddedValue(a, 2);
    PaddedValue(b, 2);
  }

  lemma SameTail(a: string, x: string, b: string, y: string)
    requires a + x == b + y && |x| == |y|
    ensures a == b && x == y
  {
    assert (a + x)[..|a|] == a && (b + y)[..|b|] == b;
    assert (a + x)[|a|..] == x && (b + y)[|b|..] == y;
  }

  function MonthDay(d: Date): (s: string)
    requires ValidDate(d)
    ensures |s| == 6
  {
    "-" + (Padded(d.month, 2) + ("-" + Padded(d.day, 2)))
  }

  lemma DatesDiffer(d: Date, e: Date)
    requires ValidDate(d) && ValidDate(e) && FormatDate(d) == FormatDate(e)
    ensures d == e
  {
    SameTail(FormatYear(d.year), MonthDay(d), FormatYear(e.year), MonthDay(e));
    YearsDiffer(d.year, e.year);
    SameMonthDay(d, e);
  }

  lemma SameMonthDay(d: Date, e: Date)
    requires ValidDate(d) && ValidDate(e) && MonthDay(d) == MonthDay(e)
    ensures d.month == e.month && d.day == e.day
  {
    assert MonthDay(d) == ("-" + Padded(d.month, 2) + "-") + Padded(d.day, 2);
    assert MonthDay(e) == ("-" + Padded(e.month, 2) + "-") + Padded(e.day, 2);
    SameTail("-" + Padded(d.month, 2) + "-", Padded(d.day, 2), "-" + Padded(e.month, 2) + "-", Padded(e.day, 2));
    SameTail("-" + Padded(d.month, 2), "-", "-" + Padded(e.month, 2), "-");
    SameTail("-", Padded(d.month, 2), "-", Padded(e.month, 2));
    TwoDigits(d.month, e.month);
    TwoDigits(d.day, e.day);
  }

  /** Two date texts agree exactly when the two instants fall on the same day. */
  lemma SameDateText(s: int, t: int, zone: int)
    ensures DateText(s, zone) == DateText(t, zone) <==> LocalDay(s, zone) == LocalDay(t, zone)
    ensures ':' !in DateText(s, zone) && DateText(s, zone) != ""
  {
    var d, e := CivilOf(LocalDay(s, zone)), CivilOf(LocalDay(t, zone));
    if FormatDate(d) == FormatDate(e) {
      DatesDiffer(d, e);
    }
    DateHasNoColon(d);
  }

  lemma DigitsHaveNoColon(s: string)
    requires AllDigits(s)
    ensures ':' !in s
  {
  }

  lemma DateHasNoColon(d: Date)
    requires ValidDate(d)
    ensures ':' !in FormatDate(d) && FormatDate(d) != ""
  {
    DigitsHaveNoColon(Padded(d.month, 2));
    DigitsHaveNoColon(Padded(d.day, 2));
    DigitsHaveNoColon(Year4(if d.year < 0 then -d.year else d.year));
  }

  lemma KeysDiffer(m: string, d: string, n: string, e: string)
    requires ':' !in d && ':' !in e
    ensures AlertKey(m, d) == AlertKey(n, e) <==> m == n && d == e
  {
    if AlertKey(m, d) == AlertKey(n, e) {
      LastCut("alert:machine:" + m, ':', d);
      LastCut("alert:machine:" + n, ':', e);
      assert ("alert:machine:" + m)[14..] == m && ("alert:machine:" + n)[14..] == n;
    }
  }

  // ----- one alert per machine and date -----

  predicate Mine(e: Event, zone: int, machine: string, day: int) {
    e.Alert? && e.machine == machine && LocalDay(e.tick, zone) == day
  }

  // The cache's clock never goes back.
  ghost predicate ClockForward(es: seq<Event>) {
    forall i, j :: 0 <= i <= j < |es| ==> es[i].at <= es[j].at
  }

  // The check finds no live key, so the owner is notified.
  predicate Noticed(es: seq<Event>, zone: int, i: nat)
    requires i < |es|
  {
    es[i].Alert? && Apply(After(map[], OpsOf(es[..i], zone)), OpOf(es[i], zone)).1 == Stored(true)
  }

  predicate MineNoticed(es: seq<Event>, zone: int, machine: string, day: int, i: nat)
    requires i < |es|
  {
    Mine(es[i], zone, machine, day) && Noticed(es, zone, i)
  }

  // The index of the last `true`, or -1.
  function LastTrue(bs: seq<bool>): (k: int)
    ensures -1 <= k < |bs| && (k >= 0 ==> bs[k]) && forall j :: k < j < |bs| ==> !bs[j]
  {
    if bs == [] then -1 else if bs[|bs| - 1] then |bs| - 1 else LastTrue(bs[..|bs| - 1])
  }

  function NoticedFlags(es: seq<Event>, zone: int, machine: string, day: int, n: nat): (bs: seq<bool>)
    requires n <= |es|
    ensures |bs| == n && forall j :: 0 <= j < n ==> bs[j] == MineNoticed(es, zone, machine, day, j)
  {
    seq(n, j requires 0 <= j < n => MineNoticed(es, zone, machine, day, j))
  }

  // The last check before the n-th that notified a machine's owner for a date, or -1.
  function LastNoticed(es: seq<Event>, zone: int, machine: string, day: int, n: nat): (k: int)
    requires n <= |es|
    ensures -1 <= k < n && (k >= 0 ==> MineNoticed(es, zone, machine, day, k))
  {
    LastTrue(NoticedFlags(es, zone, machine, day, n))
  }

  lemma LastNoticedIsLast(es: seq<Event>, zone: int, machine: string, day: int, n: nat, i: nat)
    requires i < n <= |es| && MineNoticed(es, zone, machine, day, i)
    ensures i <= LastNoticed(es, zone, machine, day, n)
  {
    assert NoticedFlags(es, zone, machine, day, n)[i];
  }

  lemma {:induction false} LastNoticedStep(es: seq<Event>, zone: int, machine: string, day: int, n: nat)
    requires 0 < n <= |es|
    ensures LastNoticed(es, zone, machine, day, n)
            == if MineNoticed(es, zone, machine, day, n - 1) then n - 1 else LastNoticed(es, zone, machine, day, n - 1)
  {
    assert NoticedFlags(es, zone, machine, day, n)[..n - 1] == NoticedFlags(es, zone, machine, day, n - 1);
  }

  // ----- the key of one machine and date -----

  /** The key is absent until it is set; after that its entry runs from the moment it was last set,
      and it is gone only once that has run out. */
  ghost predicate KeyState(d: Data, key: string, set_: Option<int>, now: int) {
    match set_
    case None => key !in d
    case Some(t) => if key in d then d[key].expiresAt == t + DAY else now > t + DAY
  }

  lemma OtherKeepsKey(d: Data, op: Op, key: string, set_: Option<int>, now: int)
    requires KeyState(d, key, set_, now) && op.key != key && (set_.Some? ==> now <= op.now)
    ensures KeyState(Apply(d, op).0, key, set_, op.now)
  {
    OtherKeyKept(d, op, key);
  }

  lemma OtherKeyKept(d: Data, op: Op, key: string)
    requires op.key != key
    ensures var d' := Apply(d, op).0;
            && (key in d' ==> key in d && d'[key] == d[key])
            && (key in d && !Expired(d[key], op.now) ==> key in d' && d'[key] == d[key])
  {
  }

  // Checking the key sets it exactly if it was never set or has run out.
  lemma OwnSetsKey(d: Data, key: string, set_: Option<int>, now: int, at: int)
    requires KeyState(d, key, set_, now) && (set_.Some? ==> now <= at)
    ensures var (d', answer) := Apply(d, Op.SetNX(key, "1", DAY, at));
            var isNew := set_.None? || at > set_.value + DAY;
            answer == Stored(isNew) && KeyState(d', key, if isNew then Some(at) else set_, at)
  {
    OwnEntry(d, key, at);
  }

  lemma OwnEntry(d: Data, key: string, at: int)
    ensures var (d', answer) := Apply(d, Op.SetNX(key, "1", DAY, at));
            && (answer == Stored(true) <==> key !in d || Expired(d[key], at))
            && answer.Stored?
            && key in d' && d'[key].expiresAt == if answer == Stored(true) then at + DAY else d[key].expiresAt
  {
  }

  lemma OwnOrOther(e: Event, zone: int, machine: string, tick: int)
    ensures OpOf(e, zone).key == AlertKey(machine, DateText(tick, zone))
            <==> Mine(e, zone, machine, LocalDay(tick, zone))
  {
    match e
    case Limit(key, _, _) =>
      assert ("rl:" + key)[0] == 'r' && AlertKey(machine, DateText(tick, zone))[0] == 'a';
    case Alert(m, began, _) =>
      SameDateText(began, tick, zone);
      SameDateText(tick, began, zone);
      KeysDiffer(m, DateText(began, zone), machine, DateText(tick, zone));
  }

  function SetAt(es: seq<Event>, zone: int, machine: string, day: int, n: nat): Option<int>
    requires n <= |es|
  {
    var k := LastNoticed(es, zone, machine, day, n);
    if k < 0 then None else Some(es[k].at)
  }

  function ClockAt(es: seq<Event>, n: nat): int
    requires n <= |es|
  {
    if n == 0 then 0 else es[n - 1].at
  }

  lemma OwnStepKey(d: Data, e: Event, zone: int, machine: string, tick: int, set_: Option<int>, now: int)
    requires Mine(e, zone, machine, LocalDay(tick, zone)) && (set_.Some? ==> now <= e.at)
    requires KeyState(d, AlertKey(machine, DateText(tick, zone)), set_, now)
    ensures var (d', answer) := Apply(d, OpOf(e, zone));
            var isNew := set_.None? || e.at > set_.value + DAY;
            answer == Stored(isNew)
            && KeyState(d', AlertKey(machine, DateText(tick, zone)), if isNew then Some(e.at) else set_, e.at)
  {
    SameDateText(e.tick, tick, zone);
    OwnSetsKey(d, AlertKey(machine, DateText(tick, zone)), set_, now, e.at);
  }

  lemma OtherStepKey(d: Data, e: Event, zone: int, machine: string, tick: int, set_: Option<int>, now: int)
    requires !Mine(e, zone, machine, LocalDay(tick, zone)) && (set_.Some? ==> now <= e.at)
    requires KeyState(d, AlertKey(machine, DateText(tick, zone)), set_, now)
    ensures KeyState(Apply(d, OpOf(e, zone)).0, AlertKey(machine, DateText(tick, zone)), set_, e.at)
  {
    OwnOrOther(e, zone, machine, tick);
    OtherKeepsKey(d, OpOf(e, zone), AlertKey(machine, DateText(tick, zone)), set_, now);
  }

  ghost predicate KeyIs(es: seq<Event>, zone: int, machine: string, tick: int, n: nat)
    requires n <= |es|
  {
    KeyState(After(map[], OpsOf(es[..n], zone)), AlertKey(machine, DateText(tick, zone)),
             SetAt(es, zone, machine, LocalDay(tick, zone), n), ClockAt(es, n))
  }

  lemma AfterPrefix(es: seq<Event>, zone: int, n: nat)
    requires 0 < n <= |es|
    ensures After(map[], OpsOf(es[..n], zone)) == Apply(After(map[], OpsOf(es[..n - 1], zone)), OpOf(es[n - 1], zone)).0
  {
    SplitPrefix(es, n);
    OpsSnoc(es[..n - 1], es[n - 1], zone);
    AfterSnoc(map[], OpsOf(es[..n - 1], zone), OpOf(es[n - 1], zone));
  }

  lemma KeyAfterOwn(es: seq<Event>, zone: int, machine: string, tick: int, n: nat)
    requires ClockForward(es) && 0 < n <= |es| && KeyIs(es, zone, machine, tick, n - 1)
    requires Mine(es[n - 1], zone, machine, LocalDay(tick, zone))
    ensures KeyIs(es, zone, machine, tick, n)
  {
    var day := LocalDay(tick, zone);
    AfterPrefix(es, zone, n);
    LastNoticedStep(es, zone, machine, day, n);
    OwnStepKey(After(map[], OpsOf(es[..n - 1], zone)), es[n - 1], zone, machine, tick,
               SetAt(es, zone, machine, day, n - 1), ClockAt(es, n - 1));
  }

  lemma KeyAfterOther(es: seq<Event>, zone: int, machine: string, tick: int, n: nat)
    requires ClockForward(es) && 0 < n <= |es| && KeyIs(es, zone, machine, tick, n - 1)
    requires !Mine(es[n - 1], zone, machine, LocalDay(tick, zone))
    ensures KeyIs(es, zone, machine, tick, n)
  {
    var day := LocalDay(tick, zone);
    AfterPrefix(es, zone, n);
    LastNoticedStep(es, zone, machine, day, n);
    OtherStepKey(After(map[], OpsOf(es[..n - 1], zone)), es[n - 1], zone, machine, tick,
                 SetAt(es, zone, machine, day, n - 1), ClockAt(es, n - 1));
  }

  lemma KeyAtStart(es: seq<Event>, zone: int, machine: string, tick: int)
    ensures KeyIs(es, zone, machine, tick, 0)
  {
  }

  // After any number of events the key is where the last notice left it.
  lemma {:induction false} KeyAfter(es: seq<Event>, zone: int, machine: string, tick: int, n: nat)
    requires ClockForward(es) && n <= |es|
    ensures KeyIs(es, zone, machine, tick, n)
  {
    if n == 0 {
      KeyAtStart(es, zone, machine, tick);
    } else {
      KeyAfter(es, zone, machine, tick, n - 1);
      if Mine(es[n - 1], zone, machine, LocalDay(tick, zone)) {
        KeyAfterOwn(es, zone, machine, tick, n);
      } else {
        KeyAfterOther(es, zone, machine, tick, n);
      }
    }
  }

  /** Over every run a check notifies a machine's owner exactly if the owner was not yet notified
      for that date, or was more than 24 hours before - however often the worker runs, keys expire,
      limits are counted or the cache sweeps. */
  lemma NoticedExactly(es: seq<Event>, zone: int, i: nat)
    requires ClockForward(es) && i < |es| && es[i].Alert?
    ensures var k := LastNoticed(es, zone, es[i].machine, LocalDay(es[i].tick, zone), i);
            Noticed(es, zone, i) <==> k < 0 || es[i].at > es[k].at + DAY
  {
    var e := es[i];
    KeyAfter(es, zone, e.machine, e.tick, i);
    OwnStepKey(After(map[], OpsOf(es[..i], zone)), e, zone, e.machine, e.tick,
               SetAt(es, zone, e.machine, LocalDay(e.tick, zone), i), ClockAt(es, i));
  }

  // ----- once per date -----

  ghost predicate AtMostOnce(es: seq<Event>, zone: int, machine: string, day: int) {
    forall i, j :: 0 <= i < j < |es| && MineNoticed(es, zone, machine, day, i) ==> !MineNoticed(es, zone, machine, day, j)
  }

  // All checks of a machine for a date reach the cache within 24 hours of each other.
  ghost predicate WithinADay(es: seq<Event>, zone: int, machine: string, day: int) {
    forall i, j :: 0 <= i < j < |es| && Mine(es[i], zone, machine, day) && Mine(es[j], zone, machine, day)
                   ==> es[j].at <= es[i].at + DAY
  }

  lemma {:induction false} FirstMine(es: seq<Event>, zone: int, machine: string, day: int, n: nat) returns (f: nat)
    requires n < |es| && Mine(es[n], zone, machine, day)
    ensures f <= n && Mine(es[f], zone, machine, day) && forall i :: 0 <= i < f ==> !Mine(es[i], zone, machine, day)
  {
    f := n;
    if i :| 0 <= i < n && Mine(es[i], zone, machine, day) {
      f := FirstMine(es, zone, machine, day, i);
    }
  }

  lemma NoneBefore(es: seq<Event>, zone: int, machine: string, day: int, n: nat)
    requires n <= |es| && forall i :: 0 <= i < n ==> !Mine(es[i], zone, machine, day)
    ensures LastNoticed(es, zone, machine, day, n) == -1
  {
  }

  lemma FirstIsNoticed(es: seq<Event>, zone: int, machine: string, day: int, f: nat)
    requires ClockForward(es) && f < |es| && Mine(es[f], zone, machine, day)
    requires forall i :: 0 <= i < f ==> !Mine(es[i], zone, machine, day)
    ensures MineNoticed(es, zone, machine, day, f)
  {
    NoneBefore(es, zone, machine, day, f);
    NoticedExactly(es, zone, f);
  }

  lemma WithinIsOnce(es: seq<Event>, zone: int, machine: string, day: int, i: nat, j: nat)
    requires ClockForward(es) && WithinADay(es, zone, machine, day)
    requires i < j < |es| && MineNoticed(es, zone, machine, day, i)
    ensures !MineNoticed(es, zone, machine, day, j)
  {
    if Mine(es[j], zone, machine, day) {
      LastNoticedIsLast(es, zone, machine, day, j, i);
      NoticedExactly(es, zone, j);
    }
  }

  // A check more than a day after another one of its date comes with a second notice.
  lemma LateIsTwice(es: seq<Event>, zone: int, machine: string, day: int, i: nat, j: nat)
    requires ClockForward(es) && i < j < |es| && Mine(es[i], zone, machine, day) && Mine(es[j], zone, machine, day)
    requires es[j].at > es[i].at + DAY
    ensures !AtMostOnce(es, zone, machine, day)
  {
    var f := FirstMine(es, zone, machine, day, i);
    FirstIsNoticed(es, zone, machine, day, f);
    LastNoticedIsLast(es, zone, machine, day, j, f);
    NoticedExactly(es, zone, j);
    var k := LastNoticed(es, zone, machine, day, j);
    assert MineNoticed(es, zone, machine, day, j) || (f < k && MineNoticed(es, zone, machine, day, k));
  }

  /** A machine's owner is notified at most once for a date exactly if all the checks of that
      machine and date reach the cache within 24 hours of each other. */
  lemma OnceExactly(es: seq<Event>, zone: int, machine: string, day: int)
    requires ClockForward(es)
    ensures AtMostOnce(es, zone, machine, day) <==> WithinADay(es, zone, machine, day)
  {
    if WithinADay(es, zone, machine, day) {
      forall i, j | 0 <= i < j < |es| && MineNoticed(es, zone, machine, day, i)
        ensures !MineNoticed(es, zone, machine, day, j)
      {
        WithinIsOnce(es, zone, machine, day, i, j);
      }
    } else {
      var i, j :| 0 <= i < j < |es| && Mine(es[i], zone, machine, day) && Mine(es[j], zone, machine, day)
                  && es[j].at > es[i].at + DAY;
      LateIsTwice(es, zone, machine, day, i, j);
    }
  }

  lemma DayBounds(t: int, zone: int)
    ensures LocalDay(t, zone) * DAY - zone <= t < (LocalDay(t, zone) + 1) * DAY - zone
  {
  }

  /** When every check of a machine for a date reaches the cache on that date, the owner is notified
      at the first of them and at no other. */
  lemma OneAlertPerDate(es: seq<Event>, zone: int, machine: string, day: int, i: nat)
    requires ClockForward(es) && i < |es| && Mine(es[i], zone, machine, day)
    requires forall j :: 0 <= j < |es| && Mine(es[j], zone, machine, day) ==> LocalDay(es[j].at, zone) == day
    ensures Noticed(es, zone, i) <==> forall j :: 0 <= j < i ==> !Mine(es[j], zone, machine, day)
  {
    var f := FirstMine(es, zone, machine, day, i);
    FirstIsNoticed(es, zone, machine, day, f);
    if f < i {
      LastNoticedIsLast(es, zone, machine, day, i, f);
      NoticedExactly(es, zone, i);
      DayBounds(es[i].at, zone);
      DayBounds(es[LastNoticed(es, zone, machine, day, i)].at, zone);
    }
  }

  /** A run that begins on a date but reaches the cache more than 24 hours after an earlier run of
      that date notifies its machine again: the key names the date, but its lifetime is counted
      from the moment it is set. The first run is over before the second begins. */
  lemma LateRunRepeats(machine: string, zone: int, tick1: int, at1: int, tick2: int, at2: int)
    requires tick1 <= at1 < tick2 <= at2 && LocalDay(tick1, zone) == LocalDay(tick2, zone) && at2 > at1 + DAY
    ensures Notified(map[], [Alert(machine, tick1, at1), Alert(machine, tick2, at2)], zone) == [machine, machine]
  {
    var a, b := Alert(machine, tick1, at1), Alert(machine, tick2, at2);
    LateAreNoticed([a, b], zone, LocalDay(tick1, zone));
    PairNoticed(a, b, zone);
    TwoNotices(a, b, zone);
  }

  lemma LateAreNoticed(es: seq<Event>, zone: int, day: int)
    requires ClockForward(es) && |es| == 2 && es[0].Alert?
    requires Mine(es[0], zone, es[0].machine, day) && Mine(es[1], zone, es[0].machine, day)
    requires es[1].at > es[0].at + DAY
    ensures Noticed(es, zone, 0) && Noticed(es, zone, 1)
  {
    FirstIsNoticed(es, zone, es[0].machine, day, 0);
    LastNoticedIsLast(es, zone, es[0].machine, day, 1, 0);
    NoticedExactly(es, zone, 1);
  }

  lemma PairNoticed(a: Event, b: Event, zone: int)
    requires a.Alert? && b.Alert? && Noticed([a, b], zone, 0) && Noticed([a, b], zone, 1)
    ensures Notice(map[], a, zone) == [a.machine] && Notice(After(map[], OpsOf([a], zone)), b, zone) == [b.machine]
  {
    assert [a, b][..0] == [] && [a, b][..1] == [a];
    NoticeOf([a, b], zone, 0);
    NoticeOf([a, b], zone, 1);
  }

  lemma TwoNotices(a: Event, b: Event, zone: int)
    requires a.Alert? && b.Alert?
    requires Notice(map[], a, zone) == [a.machine] && Notice(After(map[], OpsOf([a], zone)), b, zone) == [b.machine]
    ensures Notified(map[], [a, b], zone) == [a.machine, b.machine]
  {
    OneEvent(map[], a, zone);
    NotifiedSnoc(map[], [a], b, zone);
    Pair(a, b);
    Pair(a.machine, b.machine);
  }

  lemma NoticeOf(es: seq<Event>, zone: int, i: nat)
    requires i < |es| && Noticed(es, zone, i)
    ensures Notice(After(map[], OpsOf(es[..i], zone)), es[i], zone) == [es[i].machine]
  {
  }

  // ----- whose owner is told -----

  lemma NoticedIsTold(es: seq<Event>, zone: int, i: nat)
    requires i < |es| && Noticed(es, zone, i)
    ensures es[i].machine in Notified(map[], es, zone)
  {
    var d, rest := After(map[], OpsOf(es[..i], zone)), es[i + 1..];
    NoticeOf(es, zone, i);
    SplitAt(es, i);
    NotifiedConcat(map[], es[..i], es[i..], zone);
    NotifiedConcat(d, [es[i]], rest, zone);
    OneEvent(d, es[i], zone);
    InMiddle(Notified(map[], es[..i], zone), es[i].machine, Notified(After(d, OpsOf([es[i]], zone)), rest, zone));
  }

  lemma {:induction false} ToldIsAlert(es: seq<Event>, zone: int, machine: string)
    requires machine in Notified(map[], es, zone)
    ensures exists e :: e in es && e.Alert? && e.machine == machine
  {
    var n := |es| - 1;
    SplitLast(es);
    NotifiedSnoc(map[], es[..n], es[n], zone);
    if machine in Notified(map[], es[..n], zone) {
      ToldIsAlert(es[..n], zone, machine);
    } else {
      assert es[n] in es;
    }
  }

  /** Over a whole run of the worker on a new cache, a machine's owner is told exactly if some tick
      found the machine at the threshold and the cache answered. */
  lemma OwnersTold(ticks: seq<Tick>, zone: int, machine: string)
    requires ClockForward(AllEvents(ticks))
    ensures machine in Notified(map[], AllEvents(ticks), zone) <==>
            exists t, c :: t in ticks && c in t.checks && c.cacheOk && c.machine == machine
  {
    var es := AllEvents(ticks);
    AllEventsAre(ticks);
    if machine in Notified(map[], es, zone) {
      ToldIsAlert(es, zone, machine);
      var e :| e in es && e.Alert? && e.machine == machine;
      assert Asked(ticks, e);
    }
    if t, c :| t in ticks && c in t.checks && c.cacheOk && c.machine == machine {
      var f := FirstCheckIsTold(ticks, zone, t, c);
      NoticedIsTold(es, zone, f);
    }
  }

  /** Once for each date: every answered check of a run has its machine's owner told at the first
      check of that machine and date. */
  lemma FirstCheckIsTold(ticks: seq<Tick>, zone: int, t: Tick, c: Check) returns (f: nat)
    requires ClockForward(AllEvents(ticks)) && t in ticks && c in t.checks && c.cacheOk
    ensures f < |AllEvents(ticks)| && MineNoticed(AllEvents(ticks), zone, c.machine, LocalDay(t.now, zone), f)
    ensures forall i :: 0 <= i < f ==> !Mine(AllEvents(ticks)[i], zone, c.machine, LocalDay(t.now, zone))
  {
    var es, day := AllEvents(ticks), LocalDay(t.now, zone);
    AllEventsAre(ticks);
    assert Asked(ticks, Alert(c.machine, t.now, c.at));
    var n :| 0 <= n < |es| && es[n] == Alert(c.machine, t.now, c.at);
    f := FirstMine(es, zone, c.machine, day, n);
    FirstIsNoticed(es, zone, c.machine, day, f);
  }

  // ----- one digest per date -----

  function HourOf(now: int): int {
    (now + KST) % DAY / HOUR
  }

  // time.Date in Korean time: midnight of a date, whose day may be out of its month, plus a clock time.
  function KstInstant(year: int, month: int, day: int, clock: int): int
    requires 1 <= month <= 12
  {
    DayNumber(Date(year, month, day)) * DAY + clock - KST
  }

  // nowKST.AddDate(0, 0, -1)
  function DayAgo(now: int): int {
    var d := CivilOf(LocalDay(now, KST));
    KstInstant(d.year, d.month, d.day - 1, (now + KST) % DAY)
  }

  // The window of the digest's query (internal/store/stats.go).
  function DigestStart(day: int): int {
    var d := CivilOf(LocalDay(day, KST));
    KstInstant(d.year, d.month, d.day, 0)
  }

  function DigestEnd(day: int): int {
    DigestStart(day) + DAY
  }

  // The day the digest is about.
  function DayBefore(now: int): int {
    LocalDay(DayAgo(now), KST)
  }

  lemma DayAgoIsDayBefore(now: int)
    ensures DayAgo(now) == now - DAY && DayBefore(now) == LocalDay(now, KST) - 1
  {
    var d := CivilOf(LocalDay(now, KST));
    assert DayNumber(Date(d.year, d.month, d.day - 1)) == LocalDay(now, KST) - 1;
    DayShift(now);
  }

  lemma DayShift(now: int)
    ensures LocalDay(now, KST) * DAY + (now + KST) % DAY - KST == now
    ensures LocalDay(now - DAY, KST) == LocalDay(now, KST) - 1
  {
  }

  predicate Due(last: string, now: int) {
    HourOf(now) >= DIGEST_HOUR && last != DateText(now, KST)
  }

  function LastDigest(ts: seq<Tick>): string {
    if ts == [] then ""
    else
      var last, t := LastDigest(ts[..|ts| - 1]), ts[|ts| - 1];
      if Due(last, t.now) && t.digestOk then DateText(t.now, KST) else last
  }

  function DigestDays(ts: seq<Tick>): seq<int> {
    if ts == [] then []
    else
      var before, t := ts[..|ts| - 1], ts[|ts| - 1];
      DigestDays(before) + if Due(LastDigest(before), t.now) && t.digestOk then [DayBefore(t.now)] else []
  }

  predicate Sent(ts: seq<Tick>, i: nat)
    requires i < |ts|
  {
    Due(LastDigest(ts[..i]), ts[i].now) && ts[i].digestOk
  }

  ghost predicate Forward(ts: seq<Tick>) {
    forall i, j :: 0 <= i <= j < |ts| ==> ts[i].now <= ts[j].now
  }

  // Which of the first n ticks sent the digest.
  function SentFlags(ts: seq<Tick>, n: nat): (bs: seq<bool>)
    requires n <= |ts|
    ensures |bs| == n && forall j :: 0 <= j < n ==> bs[j] == Sent(ts, j)
  {
    seq(n, j requires 0 <= j < n => Sent(ts, j))
  }

  // The last tick before the n-th whose digest succeeded, or -1.
  function LastSent(ts: seq<Tick>, n: nat): int
    requires n <= |ts|
  {
    LastTrue(SentFlags(ts, n))
  }

  lemma {:induction false} LastSentText(ts: seq<Tick>, n: nat)
    requires n <= |ts|
    ensures var k := LastSent(ts, n);
            LastDigest(ts[..n]) == if k < 0 then "" else DateText(ts[k].now, KST)
  {
    if n > 0 {
      LastDigestStep(ts, n);
      assert SentFlags(ts, n)[..n - 1] == SentFlags(ts, n - 1);
      if !Sent(ts, n - 1) {
        LastSentText(ts, n - 1);
      }
    }
  }

  lemma LastDigestStep(ts: seq<Tick>, n: nat)
    requires 0 < n <= |ts|
    ensures LastDigest(ts[..n]) == if Sent(ts, n - 1) then DateText(ts[n - 1].now, KST) else LastDigest(ts[..n - 1])
  {
    assert ts[..n][..n - 1] == ts[..n - 1];
  }

  // No successful digest before the i-th tick fell on its date.
  ghost predicate NotYetSent(ts: seq<Tick>, i: nat)
    requires i < |ts|
  {
    forall j :: 0 <= j < i && Sent(ts, j) ==> LocalDay(ts[j].now, KST) != LocalDay(ts[i].now, KST)
  }

  // Nine to midnight in Korea are the first fifteen hours of the day in UTC.
  lemma NineInKorea(now: int)
    ensures HourOf(now) >= DIGEST_HOUR <==> now % 86_400_000_000_000 < 54_000_000_000_000
    ensures LocalDay(now, KST) == (now + 32_400_000_000_000) / 86_400_000_000_000
  {
  }

  /** The digest is tried at a tick exactly if it is past nine in Korea and no earlier try of that
      date succeeded. */
  lemma DigestOncePerDate(ts: seq<Tick>, i: nat)
    requires Forward(ts) && i < |ts|
    ensures Due(LastDigest(ts[..i]), ts[i].now) <==>
            ts[i].now % 86_400_000_000_000 < 54_000_000_000_000 && NotYetSent(ts, i)
  {
    NineInKorea(ts[i].now);
    var k := LastSent(ts, i);
    LastSentText(ts, i);
    DaysNotBack(ts);
    SameDateText(ts[i].now, ts[i].now, KST);
    if k >= 0 {
      SameDateText(ts[k].now, ts[i].now, KST);
    }
    assert forall j :: 0 <= j < i && Sent(ts, j) ==> SentFlags(ts, i)[j];
  }

  lemma DaysNotBack(ts: seq<Tick>)
    requires Forward(ts)
    ensures forall i, j :: 0 <= i <= j < |ts| ==> LocalDay(ts[i].now, KST) <= LocalDay(ts[j].now, KST)
  {
  }

  lemma LaterDay(s: int, t: int, zone: int)
    requires s <= t
    ensures LocalDay(s, zone) <= LocalDay(t, zone)
  {
  }

  ghost predicate Reported(ts: seq<Tick>, day: int) {
    exists i :: 0 <= i < |ts| && Sent(ts, i) && day == DayBefore(ts[i].now)
  }

  lemma SentInPrefix(ts: seq<Tick>, n: nat, i: nat)
    requires i < n <= |ts|
    ensures Sent(ts[..n], i) == Sent(ts, i)
  {
    assert ts[..n][..i] == ts[..i];
  }

  lemma {:induction false} ReportedAt(ts: seq<Tick>, n: nat, day: int) returns (i: nat)
    requires n <= |ts| && Reported(ts[..n], day)
    ensures i < n && Sent(ts, i) && day == DayBefore(ts[i].now)
  {
    var before := ts[..n];
    i :| 0 <= i < |before| && Sent(before, i) && day == DayBefore(before[i].now);
    SentInPrefix(ts, n, i);
  }

  lemma StillReported(ts: seq<Tick>, n: nat, day: int)
    requires n < |ts| && Forward(ts) && Reported(ts[..n], day)
    ensures Reported(ts, day)
    ensures Sent(ts, n) ==> day < DayBefore(ts[n].now)
  {
    var i := ReportedAt(ts, n, day);
    if Sent(ts, n) {
      LaterReport(ts, i, n);
    }
  }

  lemma LaterReport(ts: seq<Tick>, i: nat, n: nat)
    requires i < n < |ts| && Forward(ts) && Sent(ts, i) && Sent(ts, n)
    ensures DayBefore(ts[i].now) < DayBefore(ts[n].now)
  {
    DigestOncePerDate(ts, n);
    LaterDay(ts[i].now, ts[n].now, KST);
    DayAgoIsDayBefore(ts[i].now);
    DayAgoIsDayBefore(ts[n].now);
  }

  /** Over a whole run no day is reported twice, and the days reported go forward. */
  lemma {:induction false} DaysGoForward(ts: seq<Tick>)
    requires Forward(ts)
    ensures forall a, b :: 0 <= a < b < |DigestDays(ts)| ==> DigestDays(ts)[a] < DigestDays(ts)[b]
    ensures forall a :: 0 <= a < |DigestDays(ts)| ==> Reported(ts, DigestDays(ts)[a])
  {
    if ts != [] {
      var n := |ts| - 1;
      var days := DigestDays(ts[..n]);
      DaysGoForward(ts[..n]);
      forall a | 0 <= a < |days|
        ensures Reported(ts, days[a]) && (Sent(ts, n) ==> days[a] < DayBefore(ts[n].now))
      {
        StillReported(ts, n, days[a]);
      }
      DaysSnoc(ts);
    }
  }

  lemma DaysSnoc(ts: seq<Tick>)
    requires ts != []
    ensures var n := |ts| - 1;
            DigestDays(ts) == DigestDays(ts[..n]) + if Sent(ts, n) then [DayBefore(ts[n].now)] else []
  {
  }

  /** The window the digest's query is given holds exactly the instants of the day before. */
  lemma DigestCoversDayBefore(now: int, t: int)
    ensures DigestStart(DayAgo(now)) <= t < DigestEnd(DayAgo(now)) <==> LocalDay(t, KST) == LocalDay(now, KST) - 1
  {
    DayAgoIsDayBefore(now);
    DayBounds(t, KST);
  }
}
