/** One store's settlement figures (internal/store/settlement.go): period, day and machine sums,
    and the named periods of the calendar. */
module Settlement {
  import opened Common
  import opened Calendar
  import opened ClaimDomain
  import opened Sequences

  datatype Entry = Entry(createdAt: int, status: Status, amountKrw: int, payment: PaymentMethod, machine: string)

  // The figures that one query adds up.
  datatype Figure = Claims | PaidClaims | PaidKrw | RejectedClaims | OpenClaims | PaidByCash | PaidByCard

  predicate IsOpen(s: Status) {
    s.Pending? || s.NeedsReview? || s.OnHold?
  }

  function Bit(b: bool): int {
    if b then 1 else 0
  }

  // What one claim adds. The refund total is of the requested amounts.
  function Weight(c: Entry, f: Figure): int {
    match f
    case Claims => 1
    case PaidClaims => Bit(c.status.Paid?)
    case PaidKrw => if c.status.Paid? then c.amountKrw else 0
    case RejectedClaims => Bit(c.status.Rejected?)
    case OpenClaims => Bit(IsOpen(c.status))
    case PaidByCash => Bit(c.status.Paid? && c.payment.Cash?)
    case PaidByCard => Bit(c.status.Paid? && c.payment.Card?)
  }

  predicate Within(c: Entry, a: int, b: int) {
    a <= c.createdAt < b
  }

  // A figure over the claims with a <= created_at < b.
  function SumIn(cs: seq<Entry>, f: Figure, a: int, b: int): int {
    if cs == [] then 0
    else
      var c := cs[|cs| - 1];
      SumIn(cs[..|cs| - 1], f, a, b) + if Within(c, a, b) then Weight(c, f) else 0
  }

  datatype Totals = Totals(claims: int, paid: int, paidKrw: int, rejected: int, open: int, byCash: int, byCard: int)

  function TotalsIn(cs: seq<Entry>, a: int, b: int): Totals {
    Totals(SumIn(cs, Claims, a, b), SumIn(cs, PaidClaims, a, b), SumIn(cs, PaidKrw, a, b),
           SumIn(cs, RejectedClaims, a, b), SumIn(cs, OpenClaims, a, b),
           SumIn(cs, PaidByCash, a, b), SumIn(cs, PaidByCard, a, b))
  }

  datatype Day = Day(day: int, claims: int, paidKrw: int)

  datatype MachineRow = MachineRow(machine: string, claims: int, paidKrw: int, needsCheck: bool)

  datatype Report = Report(from: int, to: int, prevFrom: int, prevTo: int, current: Totals, previous: Totals,
                           days: seq<Day>, machines: seq<MachineRow>)

  // t.Truncate(24 * time.Hour)
  function Truncate(t: int): int {
    DayOf(t) * DAY
  }

  function DayRow(cs: seq<Entry>, day: int): Day {
    Day(day, SumIn(cs, Claims, day, day + DAY), SumIn(cs, PaidKrw, day, day + DAY))
  }

  // n day rows from `first` on.
  function DaysOf(cs: seq<Entry>, first: int, n: nat): seq<Day> {
    if n == 0 then [] else DaysOf(cs, first, n - 1) + [DayRow(cs, first + (n - 1) * DAY)]
  }

  function DayCount(a: int, b: int): nat {
    if b <= a then 0 else (b - a) / DAY
  }

  // GROUP BY date_trunc('day', created_at): one row for each day that has a claim.
  ghost predicate IsDayQuery(rows: seq<Day>, cs: seq<Entry>, a: int, b: int) {
    && (forall i :: 0 <= i < |rows| ==> rows[i] == DayRow(cs, rows[i].day))
    && (forall k :: 0 <= k < |cs| && Within(cs[k], a, b) ==> HasDay(rows, Truncate(cs[k].createdAt)))
  }

  ghost predicate HasDay(rows: seq<Day>, day: int) {
    exists i :: 0 <= i < |rows| && rows[i].day == day
  }

  function Machine(cs: seq<Entry>, m: string): seq<Entry> {
    if cs == [] then []
    else Machine(cs[..|cs| - 1], m) + if cs[|cs| - 1].machine == m then [cs[|cs| - 1]] else []
  }

  function MachineOf(cs: seq<Entry>, m: string, a: int, b: int, alertCount: int): MachineRow {
    var n := SumIn(Machine(cs, m), Claims, a, b);
    MachineRow(m, n, SumIn(Machine(cs, m), PaidKrw, a, b), alertCount > 0 && n >= alertCount)
  }

  function MachinesOf(cs: seq<Entry>, active: seq<string>, a: int, b: int, alertCount: int): seq<MachineRow> {
    if active == [] then []
    else MachinesOf(cs, active[..|active| - 1], a, b, alertCount)
         + [MachineOf(cs, active[|active| - 1], a, b, alertCount)]
  }

  /** `dayRows` is what the day query returns, `active` the store's active machines in the order
      their query lists them. */
  method SettlementFor(cs: seq<Entry>, from: int, to: int, dayRows: seq<Day>, active: seq<string>, alertCount: int)
    returns (r: Report)
    requires IsDayQuery(dayRows, cs, Truncate(from), Truncate(to) + DAY)
    ensures r.from == Truncate(from) && r.to == Truncate(to) + DAY - 1
    ensures r.prevTo == r.from - 1 && r.prevFrom == r.from - (r.to + 1 - r.from)
    ensures r.current == TotalsIn(cs, r.from, r.to + 1) && r.previous == TotalsIn(cs, r.prevFrom, r.prevTo + 1)
    ensures r.days == DaysOf(cs, r.from, DayCount(r.from, r.to + 1))
    ensures r.machines == MachinesOf(cs, active, r.from, r.to + 1, alertCount)
  {
    var fromD, toD := Truncate(from), Truncate(to) + DAY;
    var span := toD - fromD;
    var prevFrom, prevTo := fromD - span, fromD;
    var days := FillDays(cs, dayRows, fromD, toD);
    var machines := MarkMachines(cs, active, fromD, toD, alertCount);
    r := Report(fromD, toD - 1, prevFrom, prevTo - 1, TotalsIn(cs, fromD, toD), TotalsIn(cs, prevFrom, fromD),
                days, machines);
  }

  // Days without claims come out as zero rows.
  method FillDays(cs: seq<Entry>, rows: seq<Day>, fromD: int, toD: int) returns (days: seq<Day>)
    requires fromD % DAY == 0 && toD % DAY == 0 && IsDayQuery(rows, cs, fromD, toD)
    ensures days == DaysOf(cs, fromD, DayCount(fromD, toD))
  {
    var byDay: map<int, Day> := map[];
    for i := 0 to |rows|
      invariant forall k :: k in byDay ==> byDay[k] == DayRow(cs, k)
      invariant forall j :: 0 <= j < i ==> rows[j].day in byDay
    {
      byDay := byDay[rows[i].day := rows[i]];
    }
    days := [];
    var d, n := fromD, 0;
    while d < toD
      invariant n >= 0 && d == fromD + n * DAY && d % DAY == 0 && (d <= toD || n == 0)
      invariant days == DaysOf(cs, fromD, n)
      decreases toD - d
    {
      if d in byDay {
        days := days + [byDay[d]];
      } else {
        NothingOn(cs, rows, fromD, toD, d);
        days := days + [Day(d, 0, 0)];
      }
      d, n := d + DAY, n + 1;
    }
  }

  method MarkMachines(cs: seq<Entry>, active: seq<string>, a: int, b: int, alertCount: int)
    returns (machines: seq<MachineRow>)
    ensures machines == MachinesOf(cs, active, a, b, alertCount)
  {
    machines := [];
    for i := 0 to |active|
      invariant machines == MachinesOf(cs, active[..i], a, b, alertCount)
    {
      assert active[..i + 1][..i] == active[..i];
      machines := machines + [MachineOf(cs, active[i], a, b, alertCount)];
    }
    assert active[..|active|] == active;
  }

  lemma NothingOn(cs: seq<Entry>, rows: seq<Day>, fromD: int, toD: int, d: int)
    requires d % DAY == 0 && toD % DAY == 0 && fromD <= d < toD && IsDayQuery(rows, cs, fromD, toD) && !HasDay(rows, d)
    ensures DayRow(cs, d) == Day(d, 0, 0)
  {
    forall k | 0 <= k < |cs|
      ensures !Within(cs[k], d, d + DAY)
    {
      if Within(cs[k], d, d + DAY) {
        SameDay(cs[k].createdAt, d);
      }
    }
    EmptyPeriod(cs, Claims, d, d + DAY);
    EmptyPeriod(cs, PaidKrw, d, d + DAY);
  }

  lemma SameDay(t: int, d: int)
    requires d % DAY == 0
    ensures Truncate(t) == d <==> d <= t < d + DAY
  {
  }

  // ----- sums over periods -----

  lemma {:induction false} EmptyPeriod(cs: seq<Entry>, f: Figure, a: int, b: int)
    requires forall k :: 0 <= k < |cs| ==> !Within(cs[k], a, b)
    ensures SumIn(cs, f, a, b) == 0
  {
    if cs != [] {
      EmptyPeriod(cs[..|cs| - 1], f, a, b);
    }
  }

  lemma {:induction false} SumIsNatural(cs: seq<Entry>, f: Figure, a: int, b: int)
    requires forall k :: 0 <= k < |cs| ==> cs[k].amountKrw > 0
    ensures SumIn(cs, f, a, b) >= 0
  {
    if cs != [] {
      SumIsNatural(cs[..|cs| - 1], f, a, b);
    }
  }

  lemma {:induction false} ClaimIsCounted(cs: seq<Entry>, a: int, b: int, k: nat)
    requires k < |cs| && Within(cs[k], a, b)
    requires forall k :: 0 <= k < |cs| ==> cs[k].amountKrw > 0
    ensures SumIn(cs, Claims, a, b) >= 1
  {
    SumIsNatural(cs[..|cs| - 1], Claims, a, b);
    if k < |cs| - 1 {
      ClaimIsCounted(cs[..|cs| - 1], a, b, k);
    }
  }

  /** A period cut in two adds up, in every figure. */
  lemma {:induction false} SplitPeriod(cs: seq<Entry>, f: Figure, a: int, b: int, c: int)
    requires a <= b <= c
    ensures SumIn(cs, f, a, c) == SumIn(cs, f, a, b) + SumIn(cs, f, b, c)
  {
    if cs != [] {
      SplitPeriod(cs[..|cs| - 1], f, a, b, c);
    }
  }

  function SumClaims(days: seq<Day>): int {
    if days == [] then 0 else SumClaims(days[..|days| - 1]) + days[|days| - 1].claims
  }

  function SumPaid(days: seq<Day>): int {
    if days == [] then 0 else SumPaid(days[..|days| - 1]) + days[|days| - 1].paidKrw
  }

  lemma {:induction false} DaysContiguous(cs: seq<Entry>, first: int, n: nat)
    ensures |DaysOf(cs, first, n)| == n
    ensures forall i :: 0 <= i < n ==> DaysOf(cs, first, n)[i].day == first + i * DAY
  {
    if n > 0 {
      DaysContiguous(cs, first, n - 1);
    }
  }

  lemma SumsSnoc(days: seq<Day>, d: Day)
    ensures SumClaims(days + [d]) == SumClaims(days) + d.claims
    ensures SumPaid(days + [d]) == SumPaid(days) + d.paidKrw
  {
    TakeSnoc(days, d);
  }

  lemma OneMoreDay(cs: seq<Entry>, first: int, last: int)
    requires first <= last
    ensures SumIn(cs, Claims, first, last + DAY) == SumIn(cs, Claims, first, last) + DayRow(cs, last).claims
    ensures SumIn(cs, PaidKrw, first, last + DAY) == SumIn(cs, PaidKrw, first, last) + DayRow(cs, last).paidKrw
  {
    SplitPeriod(cs, Claims, first, last, last + DAY);
    SplitPeriod(cs, PaidKrw, first, last, last + DAY);
  }

  lemma DayAddsUp(days: seq<Day>, cs: seq<Entry>, first: int, last: int)
    requires first <= last && SumClaims(days) == SumIn(cs, Claims, first, last) && SumPaid(days) == SumIn(cs, PaidKrw, first, last)
    ensures var more := days + [DayRow(cs, last)];
            && SumClaims(more) == SumIn(cs, Claims, first, last + DAY)
            && SumPaid(more) == SumIn(cs, PaidKrw, first, last + DAY)
  {
    SumsSnoc(days, DayRow(cs, last));
    OneMoreDay(cs, first, last);
  }

  lemma OneDayLonger(first: int, n: int)
    ensures first + n * DAY == (first + (n - 1) * DAY) + DAY
  {
  }

  /** The day rows add up to the period's claim count and refund total. */
  lemma {:induction false} DaysAddUp(cs: seq<Entry>, first: int, n: nat)
    ensures SumClaims(DaysOf(cs, first, n)) == SumIn(cs, Claims, first, first + n * DAY)
    ensures SumPaid(DaysOf(cs, first, n)) == SumIn(cs, PaidKrw, first, first + n * DAY)
  {
    if n == 0 {
      EmptyPeriod(cs, Claims, first, first);
      EmptyPeriod(cs, PaidKrw, first, first);
    } else {
      var last := first + (n - 1) * DAY;
      OneDayLonger(first, n);
      DaysAddUp(cs, first, n - 1);
      DayAddsUp(DaysOf(cs, first, n - 1), cs, first, last);
    }
  }

  /** The whole chart: contiguous days without gap or repeat from the first to the last of the
      period, which add up to its totals; and the previous period ends where this one starts, is
      as long, and makes up with it one period twice the length, in every figure. */
  lemma PeriodFigures(cs: seq<Entry>, from: int, to: int, f: Figure)
    requires DayOf(from) <= DayOf(to)
    ensures var a, b := Truncate(from), Truncate(to) + DAY;
            var days := DaysOf(cs, a, DayCount(a, b));
            && |days| == DayOf(to) - DayOf(from) + 1
            && (forall i :: 0 <= i < |days| ==> days[i].day == a + i * DAY)
            && SumClaims(days) == TotalsIn(cs, a, b).claims
            && SumPaid(days) == TotalsIn(cs, a, b).paidKrw
            && SumIn(cs, f, a - (b - a), b) == SumIn(cs, f, a - (b - a), a) + SumIn(cs, f, a, b)
  {
    var a, b := Truncate(from), Truncate(to) + DAY;
    WholeDays(DayOf(from), DayOf(to) + 1);
    DaysContiguous(cs, a, DayCount(a, b));
    DaysAddUp(cs, a, DayCount(a, b));
    SplitPeriod(cs, f, a - (b - a), a, b);
  }

  lemma WholeDays(m: int, n: int)
    requires m <= n
    ensures DayCount(m * DAY, n * DAY) == n - m
  {
  }

  function ApprovedIn(cs: seq<Entry>, a: int, b: int): int {
    if cs == [] then 0
    else
      var c := cs[|cs| - 1];
      ApprovedIn(cs[..|cs| - 1], a, b) + Bit(Within(c, a, b) && c.status.Approved?)
  }

  function UnknownPaidIn(cs: seq<Entry>, a: int, b: int): int {
    if cs == [] then 0
    else
      var c := cs[|cs| - 1];
      UnknownPaidIn(cs[..|cs| - 1], a, b) + Bit(Within(c, a, b) && c.status.Paid? && c.payment.UnknownMethod?)
  }

  /** Every claim of a period is open, approved, rejected or paid; cash and card make up the paid
      ones but for those whose payment method is neither. */
  lemma {:induction false} StatusesAddUp(cs: seq<Entry>, a: int, b: int)
    requires forall k :: 0 <= k < |cs| ==> Known(cs[k].status)
    ensures var t := TotalsIn(cs, a, b);
            && t.claims == t.open + ApprovedIn(cs, a, b) + t.rejected + t.paid
            && t.paid == t.byCash + t.byCard + UnknownPaidIn(cs, a, b)
  {
    if cs != [] {
      StatusesAddUp(cs[..|cs| - 1], a, b);
    }
  }

  /** Every paid claim adds to the refund total and no other claim does. */
  lemma {:induction false} RefundsArePaid(cs: seq<Entry>, a: int, b: int)
    requires forall k :: 0 <= k < |cs| ==> cs[k].amountKrw > 0
    ensures SumIn(cs, PaidKrw, a, b) >= SumIn(cs, PaidClaims, a, b) >= 0
    ensures SumIn(cs, PaidKrw, a, b) == 0
            <==> forall k :: 0 <= k < |cs| && Within(cs[k], a, b) ==> cs[k].status != Paid
  {
    if cs != [] {
      RefundsArePaid(cs[..|cs| - 1], a, b);
      assert forall k :: 0 <= k < |cs| - 1 ==> cs[..|cs| - 1][k] == cs[k];
    }
  }

  // ----- what one claim moves -----

  // What a claim adds to a figure of a period.
  function Share(c: Entry, f: Figure, a: int, b: int): int {
    if Within(c, a, b) then Weight(c, f) else 0
  }

  lemma {:induction false} SumUpdate(cs: seq<Entry>, i: nat, c: Entry, f: Figure, a: int, b: int)
    requires i < |cs|
    ensures SumIn(cs[i := c], f, a, b) == SumIn(cs, f, a, b) - Share(cs[i], f, a, b) + Share(c, f, a, b)
  {
    var n := |cs| - 1;
    if i < n {
      SumUpdate(cs[..n], i, c, f, a, b);
      UpdateInFront(cs, i, c);
    } else {
      UpdateLast(cs, c);
    }
  }

  /** A claim of the period that changes its status leaves the number of claims and moves every other
      figure by exactly itself: the refund total by the amount it asks for, the counts by one, cash
      and card by how it was paid for. A claim outside the period moves nothing. */
  lemma StatusMoves(cs: seq<Entry>, i: nat, to: Status, a: int, b: int)
    requires i < |cs|
    ensures var c := cs[i];
            var t, t' := TotalsIn(cs, a, b), TotalsIn(cs[i := c.(status := to)], a, b);
            if !(a <= c.createdAt < b) then t' == t
            else
              && t'.claims == t.claims
              && t'.paidKrw - t.paidKrw == (if to == Paid then c.amountKrw else 0) - (if c.status == Paid then c.amountKrw else 0)
              && t'.paid - t.paid == Bit(to == Paid) - Bit(c.status == Paid)
              && t'.rejected - t.rejected == Bit(to == Rejected) - Bit(c.status == Rejected)
              && t'.open - t.open == Bit(to in {Pending, NeedsReview, OnHold}) - Bit(c.status in {Pending, NeedsReview, OnHold})
              && t'.byCash - t.byCash == (if c.payment == Cash then t'.paid - t.paid else 0)
              && t'.byCard - t.byCard == (if c.payment == Card then t'.paid - t.paid else 0)
  {
    var c' := cs[i].(status := to);
    SumUpdate(cs, i, c', Claims, a, b);
    SumUpdate(cs, i, c', PaidClaims, a, b);
    SumUpdate(cs, i, c', PaidKrw, a, b);
    SumUpdate(cs, i, c', RejectedClaims, a, b);
    SumUpdate(cs, i, c', OpenClaims, a, b);
    SumUpdate(cs, i, c', PaidByCash, a, b);
    SumUpdate(cs, i, c', PaidByCard, a, b);
  }

  lemma {:induction false} MachineUpdate(cs: seq<Entry>, i: nat, c: Entry, m: string, f: Figure, a: int, b: int)
    requires i < |cs| && c.machine == cs[i].machine
    ensures SumIn(Machine(cs[i := c], m), f, a, b) ==
            SumIn(Machine(cs, m), f, a, b) + if c.machine == m then Share(c, f, a, b) - Share(cs[i], f, a, b) else 0
  {
    var n := |cs| - 1;
    SplitLast(cs);
    MachineSnoc(cs[..n], cs[n], m);
    SumSnoc(Machine(cs[..n], m), cs[n], f, a, b);
    if i < n {
      MachineUpdate(cs[..n], i, c, m, f, a, b);
      UpdateInFront(cs, i, c);
      MachineSnoc(cs[..n][i := c], cs[n], m);
      SumSnoc(Machine(cs[..n][i := c], m), cs[n], f, a, b);
    } else {
      UpdateLast(cs, c);
      MachineSnoc(cs[..n], c, m);
      SumSnoc(Machine(cs[..n], m), c, f, a, b);
    }
  }

  /** On the machine rows the same change moves the refunds of its own machine, by the same amount,
      and nothing else. */
  lemma StatusMovesMachine(cs: seq<Entry>, i: nat, to: Status, m: string, a: int, b: int, alertCount: int)
    requires i < |cs|
    ensures var c := cs[i];
            var row, row' := MachineOf(cs, m, a, b, alertCount), MachineOf(cs[i := c.(status := to)], m, a, b, alertCount);
            && row'.paidKrw - row.paidKrw ==
               (if c.machine == m && a <= c.createdAt < b then
                  (if to == Paid then c.amountKrw else 0) - (if c.status == Paid then c.amountKrw else 0)
                else 0)
            && row' == row.(paidKrw := row'.paidKrw)
  {
    MachineUpdate(cs, i, cs[i].(status := to), m, Claims, a, b);
    MachineUpdate(cs, i, cs[i].(status := to), m, PaidKrw, a, b);
  }

  // ----- counting -----

  lemma {:induction false} SumIsCount(cs: seq<Entry>, f: Figure, a: int, b: int, p: Entry -> bool)
    requires forall c :: Share(c, f, a, b) == Bit(p(c))
    ensures SumIn(cs, f, a, b) == |Places(cs, p)|
  {
    if cs != [] {
      SumIsCount(cs[..|cs| - 1], f, a, b, p);
      PlacesSnoc(cs, p);
    }
  }

  /** Every count on the screen is the number of the period's claims that are in the state named. */
  lemma CountsAreExact(cs: seq<Entry>, a: int, b: int)
    ensures var t := TotalsIn(cs, a, b);
            && t.claims == |set i | 0 <= i < |cs| && a <= cs[i].createdAt < b|
            && t.paid == |set i | 0 <= i < |cs| && a <= cs[i].createdAt < b && cs[i].status == Paid|
            && t.rejected == |set i | 0 <= i < |cs| && a <= cs[i].createdAt < b && cs[i].status == Rejected|
            && t.open == |set i | 0 <= i < |cs| && a <= cs[i].createdAt < b
                                  && (cs[i].status == Pending || cs[i].status == NeedsReview || cs[i].status == OnHold)|
            && t.byCash == |set i | 0 <= i < |cs| && a <= cs[i].createdAt < b && cs[i].status == Paid && cs[i].payment == Cash|
            && t.byCard == |set i | 0 <= i < |cs| && a <= cs[i].createdAt < b && cs[i].status == Paid && cs[i].payment == Card|
  {
    ClaimCount(cs, a, b);
    PaidCount(cs, a, b);
    RejectedCount(cs, a, b);
    OpenCount(cs, a, b);
    CashCount(cs, a, b);
    CardCount(cs, a, b);
  }

  lemma ClaimCount(cs: seq<Entry>, a: int, b: int)
    ensures SumIn(cs, Claims, a, b) == |set i | 0 <= i < |cs| && a <= cs[i].createdAt < b|
  {
    var p := (c: Entry) => a <= c.createdAt < b;
    SumIsCount(cs, Claims, a, b, p);
    assert Places(cs, p) == set i | 0 <= i < |cs| && a <= cs[i].createdAt < b;
  }

  lemma PaidCount(cs: seq<Entry>, a: int, b: int)
    ensures SumIn(cs, PaidClaims, a, b) ==
            |set i | 0 <= i < |cs| && a <= cs[i].createdAt < b && cs[i].status == Paid|
  {
    var p := (c: Entry) => a <= c.createdAt < b && c.status == Paid;
    SumIsCount(cs, PaidClaims, a, b, p);
    assert Places(cs, p) == set i | 0 <= i < |cs| && a <= cs[i].createdAt < b && cs[i].status == Paid;
  }

  lemma RejectedCount(cs: seq<Entry>, a: int, b: int)
    ensures SumIn(cs, RejectedClaims, a, b) ==
            |set i | 0 <= i < |cs| && a <= cs[i].createdAt < b && cs[i].status == Rejected|
  {
    var p := (c: Entry) => a <= c.createdAt < b && c.status == Rejected;
    SumIsCount(cs, RejectedClaims, a, b, p);
    assert Places(cs, p) == set i | 0 <= i < |cs| && a <= cs[i].createdAt < b && cs[i].status == Rejected;
  }

  lemma OpenCount(cs: seq<Entry>, a: int, b: int)
    ensures SumIn(cs, OpenClaims, a, b) ==
            |set i | 0 <= i < |cs| && a <= cs[i].createdAt < b
                     && (cs[i].status == Pending || cs[i].status == NeedsReview || cs[i].status == OnHold)|
  {
    var p := (c: Entry) => a <= c.createdAt < b && (c.status == Pending || c.status == NeedsReview || c.status == OnHold);
    SumIsCount(cs, OpenClaims, a, b, p);
    assert Places(cs, p) == set i | 0 <= i < |cs| && a <= cs[i].createdAt < b
                                    && (cs[i].status == Pending || cs[i].status == NeedsReview || cs[i].status == OnHold);
  }

  lemma CashCount(cs: seq<Entry>, a: int, b: int)
    ensures SumIn(cs, PaidByCash, a, b) ==
            |set i | 0 <= i < |cs| && a <= cs[i].createdAt < b && cs[i].status == Paid && cs[i].payment == Cash|
  {
    var p := (c: Entry) => a <= c.createdAt < b && c.status == Paid && c.payment == Cash;
    SumIsCount(cs, PaidByCash, a, b, p);
    assert Places(cs, p) == set i | 0 <= i < |cs| && a <= cs[i].createdAt < b && cs[i].status == Paid && cs[i].payment == Cash;
  }

  lemma CardCount(cs: seq<Entry>, a: int, b: int)
    ensures SumIn(cs, PaidByCard, a, b) ==
            |set i | 0 <= i < |cs| && a <= cs[i].createdAt < b && cs[i].status == Paid && cs[i].payment == Card|
  {
    var p := (c: Entry) => a <= c.createdAt < b && c.status == Paid && c.payment == Card;
    SumIsCount(cs, PaidByCard, a, b, p);
    assert Places(cs, p) == set i | 0 <= i < |cs| && a <= cs[i].createdAt < b && cs[i].status == Paid && cs[i].payment == Card;
  }

  lemma {:induction false} MachineCount(cs: seq<Entry>, m: string, a: int, b: int)
    ensures SumIn(Machine(cs, m), Claims, a, b) == |Places(cs, (c: Entry) => a <= c.createdAt < b && c.machine == m)|
  {
    if cs != [] {
      var init, c := cs[..|cs| - 1], cs[|cs| - 1];
      MachineCount(init, m, a, b);
      SplitLast(cs);
      MachineSnoc(init, c, m);
      SumSnoc(Machine(init, m), c, Claims, a, b);
      PlacesSnoc(cs, (c: Entry) => a <= c.createdAt < b && c.machine == m);
    }
  }

  /** The row of an active machine counts the period's claims on it, and is marked exactly if there
      is a positive alert count and that many of them. */
  lemma {:induction false} MachineRowsExactly(cs: seq<Entry>, active: seq<string>, a: int, b: int, alertCount: int, i: nat)
    requires i < |active|
    ensures var rows := MachinesOf(cs, active, a, b, alertCount);
            var n := |set k | 0 <= k < |cs| && a <= cs[k].createdAt < b && cs[k].machine == active[i]|;
            && |rows| == |active| && rows[i].machine == active[i]
            && rows[i].claims == n && (rows[i].needsCheck <==> n >= alertCount > 0)
  {
    MachineRowsAre(cs, active, a, b, alertCount);
    MachineCount(cs, active[i], a, b);
    assert Places(cs, (c: Entry) => a <= c.createdAt < b && c.machine == active[i]) ==
           set k | 0 <= k < |cs| && a <= cs[k].createdAt < b && cs[k].machine == active[i];
  }

  lemma {:induction false} MachineRowsAre(cs: seq<Entry>, active: seq<string>, a: int, b: int, alertCount: int)
    ensures var rows := MachinesOf(cs, active, a, b, alertCount);
            |rows| == |active| && forall i :: 0 <= i < |active| ==> rows[i] == MachineOf(cs, active[i], a, b, alertCount)
  {
    if active != [] {
      MachineRowsAre(cs, active[..|active| - 1], a, b, alertCount);
    }
  }

  // ----- machines -----

  predicate NoRepeats(names: seq<string>) {
    forall i, j :: 0 <= i < j < |names| ==> names[i] != names[j]
  }

  function Unlisted(cs: seq<Entry>, names: seq<string>): seq<Entry> {
    if cs == [] then []
    else Unlisted(cs[..|cs| - 1], names) + if cs[|cs| - 1].machine in names then [] else [cs[|cs| - 1]]
  }

  function SumOver(cs: seq<Entry>, names: seq<string>, f: Figure, a: int, b: int): int {
    if names == [] then 0
    else SumOver(cs, names[..|names| - 1], f, a, b) + SumIn(Machine(cs, names[|names| - 1]), f, a, b)
  }

  lemma SumSnoc(cs: seq<Entry>, c: Entry, f: Figure, a: int, b: int)
    ensures SumIn(cs + [c], f, a, b) == SumIn(cs, f, a, b) + if Within(c, a, b) then Weight(c, f) else 0
  {
  }

  lemma MachineSnoc(cs: seq<Entry>, c: Entry, m: string)
    ensures Machine(cs + [c], m) == if c.machine == m then Machine(cs, m) + [c] else Machine(cs, m)
  {
  }

  lemma UnlistedSnoc(cs: seq<Entry>, c: Entry, names: seq<string>)
    ensures Unlisted(cs + [c], names) == if c.machine in names then Unlisted(cs, names) else Unlisted(cs, names) + [c]
  {
  }

  lemma {:induction false} SumOverSnoc(cs: seq<Entry>, c: Entry, names: seq<string>, f: Figure, a: int, b: int)
    requires NoRepeats(names)
    ensures SumOver(cs + [c], names, f, a, b)
            == SumOver(cs, names, f, a, b) + if c.machine in names && Within(c, a, b) then Weight(c, f) else 0
  {
    if names != [] {
      var init, m := names[..|names| - 1], names[|names| - 1];
      SplitLast(names);
      SumOverSnoc(cs, c, init, f, a, b);
      MachineSnoc(cs, c, m);
      SumSnoc(Machine(cs, m), c, f, a, b);
    }
  }

  lemma {:induction false} SumOverNothing(names: seq<string>, f: Figure, a: int, b: int)
    ensures SumOver([], names, f, a, b) == 0
  {
    if names != [] {
      SumOverNothing(names[..|names| - 1], f, a, b);
    }
  }

  /** The machine rows and the claims on machines that are not listed make up the period. */
  lemma {:induction false} MachinesAddUp(cs: seq<Entry>, names: seq<string>, f: Figure, a: int, b: int)
    requires NoRepeats(names)
    ensures SumOver(cs, names, f, a, b) + SumIn(Unlisted(cs, names), f, a, b) == SumIn(cs, f, a, b)
  {
    if cs == [] {
      SumOverNothing(names, f, a, b);
    } else {
      var init, c := cs[..|cs| - 1], cs[|cs| - 1];
      MachinesAddUp(init, names, f, a, b);
      SplitLast(cs);
      SumOverSnoc(init, c, names, f, a, b);
      UnlistedSnoc(init, c, names);
      SumSnoc(Unlisted(init, names), c, f, a, b);
    }
  }

  lemma {:induction false} UnlistedAre(cs: seq<Entry>, names: seq<string>)
    ensures forall c :: c in Unlisted(cs, names) <==> c in cs && c.machine !in names
  {
    if cs != [] {
      UnlistedAre(cs[..|cs| - 1], names);
      SplitLast(cs);
    }
  }

  ghost predicate AllListed(cs: seq<Entry>, names: seq<string>, a: int, b: int) {
    forall c :: c in cs && Within(c, a, b) ==> c.machine in names
  }

  lemma UnlistedPositive(cs: seq<Entry>, names: seq<string>)
    requires forall k :: 0 <= k < |cs| ==> cs[k].amountKrw > 0
    ensures forall k :: 0 <= k < |Unlisted(cs, names)| ==> Unlisted(cs, names)[k].amountKrw > 0
  {
  }

  lemma UnlistedClaims(cs: seq<Entry>, names: seq<string>, a: int, b: int)
    requires forall k :: 0 <= k < |cs| ==> cs[k].amountKrw > 0
    ensures SumIn(Unlisted(cs, names), Claims, a, b) == 0 <==> AllListed(cs, names, a, b)
  {
    var out := Unlisted(cs, names);
    UnlistedAre(cs, names);
    if AllListed(cs, names, a, b) {
      forall k | 0 <= k < |out|
        ensures !Within(out[k], a, b)
      {
        assert out[k] in cs;
      }
      EmptyPeriod(out, Claims, a, b);
    } else {
      var c :| c in cs && Within(c, a, b) && c.machine !in names;
      assert c in out;
      var k :| 0 <= k < |out| && out[k] == c;
      UnlistedPositive(cs, names);
      ClaimIsCounted(out, a, b, k);
    }
  }

  /** The machine rows, which skip inactive machines, never add up to more than the period, in any
      figure, and to all its claims exactly when no claim of the period is on a machine left out. */
  lemma MachinesAtMostTotal(cs: seq<Entry>, names: seq<string>, f: Figure, a: int, b: int)
    requires NoRepeats(names) && forall k :: 0 <= k < |cs| ==> cs[k].amountKrw > 0
    ensures SumOver(cs, names, f, a, b) <= SumIn(cs, f, a, b)
    ensures SumOver(cs, names, Claims, a, b) == SumIn(cs, Claims, a, b) <==> AllListed(cs, names, a, b)
  {
    MachinesAddUp(cs, names, f, a, b);
    MachinesAddUp(cs, names, Claims, a, b);
    UnlistedPositive(cs, names);
    SumIsNatural(Unlisted(cs, names), f, a, b);
    UnlistedClaims(cs, names, a, b);
  }

  /** The rows on screen carry those sums. */
  lemma {:induction false} RowsCarrySums(cs: seq<Entry>, names: seq<string>, a: int, b: int, alertCount: int)
    ensures RowClaims(MachinesOf(cs, names, a, b, alertCount)) == SumOver(cs, names, Claims, a, b)
    ensures RowPaid(MachinesOf(cs, names, a, b, alertCount)) == SumOver(cs, names, PaidKrw, a, b)
  {
    if names != [] {
      RowsCarrySums(cs, names[..|names| - 1], a, b, alertCount);
    }
  }

  function RowClaims(rows: seq<MachineRow>): int {
    if rows == [] then 0 else RowClaims(rows[..|rows| - 1]) + rows[|rows| - 1].claims
  }

  function RowPaid(rows: seq<MachineRow>): int {
    if rows == [] then 0 else RowPaid(rows[..|rows| - 1]) + rows[|rows| - 1].paidKrw
  }

  // ----- named periods -----

  function FirstOfMonth(d: Date): Date {
    Date(d.year, d.month, 1)
  }

  function MonthBefore(d: Date): Date {
    if d.month == 1 then Date(d.year - 1, 12, 1) else Date(d.year, d.month - 1, 1)
  }

  // The first and the last day of a named period, as day numbers.
  function SettlementRange(period: string, today: Date): (int, int)
    requires ValidDate(today)
  {
    if period == "month" then (DayNumber(FirstOfMonth(today)), DayNumber(today))
    else if period == "last_month" then (DayNumber(MonthBefore(today)), DayNumber(FirstOfMonth(today)) - 1)
    else
      var n := DayNumber(today);
      (n - (Weekday(n) + 6) % 7, n)
  }

  lemma MonthLengths(d: Date)
    requires ValidDate(d)
    ensures ValidDate(MonthBefore(d)) && ValidDate(FirstOfMonth(d))
    ensures var p := MonthBefore(d);
            DayNumber(FirstOfMonth(d)) == DayNumber(p) + DaysIn(p.year, p.month)
  {
    var p := MonthBefore(d);
    YearLength(p.year);
    assert DaysIn(p.year, p.month) >= 1 && DaysIn(d.year, d.month) >= 1;
  }

  /** On every date this month starts on its first day and ends today, and the week starts on a
      Monday at most six days back and ends today. */
  lemma CurrentRanges(today: Date)
    requires ValidDate(today)
    ensures var (m0, m1) := SettlementRange("month", today);
            var (w0, w1) := SettlementRange("week", today);
            && CivilOf(m0) == FirstOfMonth(today) && m0 <= m1 == DayNumber(today)
            && Weekday(w0) == 1 && w1 - 6 <= w0 <= w1 == DayNumber(today)
  {
    MonthLengths(today);
    CivilRoundTrip(FirstOfMonth(today));
    MondayBefore(DayNumber(today));
    assert DayNumber(FirstOfMonth(today)) == DayNumber(today) - (today.day - 1);
  }

  lemma MondayBefore(n: int)
    ensures Weekday(n - (Weekday(n) + 6) % 7) == 1
  {
  }

  function LastOfMonth(first: Date): Date
    requires ValidDate(first)
  {
    Date(first.year, first.month, DaysIn(first.year, first.month))
  }

  lemma MonthSpan(today: Date)
    requires ValidDate(today)
    ensures ValidDate(MonthBefore(today)) && ValidDate(LastOfMonth(MonthBefore(today)))
    ensures DayNumber(LastOfMonth(MonthBefore(today))) == DayNumber(FirstOfMonth(today)) - 1
  {
    MonthLengths(today);
  }

  lemma CivilAt(d: Date, n: int)
    requires ValidDate(d) && DayNumber(d) == n
    ensures CivilOf(n) == d
  {
    CivilRoundTrip(d);
  }

  /** On every date last month is one whole calendar month, which ends the day before this month
      starts. */
  lemma LastMonthIsWhole(today: Date)
    requires ValidDate(today)
    ensures ValidDate(MonthBefore(today))
    ensures SettlementRange("last_month", today).1 + 1 == SettlementRange("month", today).0
    ensures CivilOf(SettlementRange("last_month", today).0) == MonthBefore(today)
    ensures CivilOf(SettlementRange("last_month", today).1) == LastOfMonth(MonthBefore(today))
  {
    MonthSpan(today);
    CivilAt(MonthBefore(today), SettlementRange("last_month", today).0);
    CivilAt(LastOfMonth(MonthBefore(today)), SettlementRange("last_month", today).1);
  }

  /** The period compared with is the span of equal length just before, not the month before: the
      two are the same exactly on the day of the month that is the last of the month before. */
  lemma PreviousIsLastMonth(today: Date)
    requires ValidDate(today)
    ensures var (m0, m1) := SettlementRange("month", today);
            var (l0, l1) := SettlementRange("last_month", today);
            var p := MonthBefore(today);
            (m0 - (m1 + 1 - m0), m0 - 1) == (l0, l1) <==> today.day == DaysIn(p.year, p.month)
  {
    MonthLengths(today);
  }

  // The instants of a local day that lie before the end of the sums.
  ghost predicate WholeDayCounted(today: int, zone: int, end: int) {
    forall t :: LocalDay(t, zone) == today ==> t < end
  }

  function LocalDay(t: int, zone: int): int {
    DayOf(t + zone)
  }

  /** The named days are midnights where the server's clock is, but the sums cut at midnights in
      UTC. All of today is counted exactly if the two are the same. */
  lemma TodayIsCounted(today: int, zone: int)
    requires -DAY < zone < DAY
    ensures WholeDayCounted(today, zone, Truncate(today * DAY - zone) + DAY) <==> zone == 0
  {
    var end := Truncate(today * DAY - zone) + DAY;
    if zone == 0 {
      forall t | LocalDay(t, zone) == today
        ensures t < end
      {
      }
    } else {
      var t := if zone > 0 then today * DAY else (today + 1) * DAY;
      assert LocalDay(t, zone) == today;
      assert t >= end;
    }
  }
}
