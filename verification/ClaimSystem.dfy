/** Concurrent admin requests on the shared claims table.

    A request runs in three separate steps - read, decide on its private copy, swap - and any
    number of requests, claim creations and contact views may interleave. A schedule is any
    sequence of steps; a step that is not enabled does nothing. */
module ClaimSystem {
  import opened Common
  import opened ClaimDomain
  import opened ClaimStore

  // `base` is the row as it was read; `copy` is the private copy after the decision.
  datatype Phase =
    | Arrived
    | Loaded(base: ClaimData)
    | Decided(base: ClaimData, copy: ClaimData, ev: Event)
    | Answered(resp: Response)

  datatype InFlight = InFlight(req: Request, phase: Phase)

  datatype System = System(db: Db, reqs: map<nat, InFlight>)

  datatype Step =
    | CreateStep(data: ClaimData, at: int)
    | ViewStep(claimId: string, viewer: Actor, at: int)
    | ArriveStep(rid: nat, req: Request)
    | ReadStep(rid: nat, dbOk: bool)
    | DecideStep(rid: nat, now: int)
    | SwapStep(rid: nat, dbOk: bool)

  const INIT := System(Db(map[], []), map[])

  const CUSTOMER := Actor("customer", "")

  predicate Creatable(t: Table, c: ClaimData) {
    && c.id !in t && c.amountKrw > 0 && c.status in {Pending, NeedsReview, OnHold}
    && c.resolvedAt.None? && c.paidAt.None? && c.payoutMethod == "" && c.paidAmountKrw == 0
  }

  function CreateApply(db: Db, c: ClaimData, at: int): Db {
    Db(db.table[c.id := Row(c, "")],
       db.log + [Event(c.id, CUSTOMER, CreateAction, OtherStatus(""), c.status, "", at)])
  }

  function ViewApply(db: Db, claimId: string, viewer: Actor, at: int): Db {
    Db(db.table, db.log + [ViewEvent(claimId, viewer, at)])
  }

  function Advance(s: System, rid: nat, phase: Phase): System
    requires rid in s.reqs
  {
    s.(reqs := s.reqs[rid := s.reqs[rid].(phase := phase)])
  }

  function Read(s: System, rid: nat, dbOk: bool): System
    requires rid in s.reqs
  {
    var found := Lookup(s.db.table, s.reqs[rid].req);
    Advance(s, rid,
            if !dbOk then Answered(InternalError)
            else if found.None? then Answered(NotFound)
            else Loaded(found.value))
  }

  function DecideFor(s: System, rid: nat, now: int): System
    requires rid in s.reqs && s.reqs[rid].phase.Loaded?
  {
    var InFlight(req, phase) := s.reqs[rid];
    match Decide(phase.base, req, now)
    case Err(e) => Advance(s, rid, Answered(e))
    case Ok((copy, ev)) => Advance(s, rid, Decided(phase.base, copy, ev))
  }

  function SwapFor(s: System, rid: nat, dbOk: bool): System
    requires rid in s.reqs && s.reqs[rid].phase.Decided?
  {
    var InFlight(req, phase) := s.reqs[rid];
    var (db, res) := Swap(s.db, req.storeId, phase.copy, phase.ev, dbOk);
    Advance(s.(db := db), rid,
            Answered(match res
                     case Applied => Success(phase.copy.status)
                     case RowMissing => Stale
                     case DbFailed => InternalError))
  }

  predicate Enabled(s: System, step: Step) {
    match step
    case CreateStep(c, _) => Creatable(s.db.table, c)
    case ViewStep(id, viewer, _) => id in s.db.table && viewer.kind != ""
    case ArriveStep(rid, _) => rid !in s.reqs
    case ReadStep(rid, _) => rid in s.reqs && s.reqs[rid].phase.Arrived?
    case DecideStep(rid, _) => rid in s.reqs && s.reqs[rid].phase.Loaded?
    case SwapStep(rid, _) => rid in s.reqs && s.reqs[rid].phase.Decided?
  }

  function Next(s: System, step: Step): System {
    if !Enabled(s, step) then s
    else
      match step
      case CreateStep(c, at) => s.(db := CreateApply(s.db, c, at))
      case ViewStep(id, viewer, at) => s.(db := ViewApply(s.db, id, viewer, at))
      case ArriveStep(rid, req) => s.(reqs := s.reqs[rid := InFlight(req, Arrived)])
      case ReadStep(rid, dbOk) => Read(s, rid, dbOk)
      case DecideStep(rid, now) => DecideFor(s, rid, now)
      case SwapStep(rid, dbOk) => SwapFor(s, rid, dbOk)
  }

  function Run(steps: seq<Step>): System {
    if steps == [] then INIT else Next(Run(steps[..|steps| - 1]), steps[|steps| - 1])
  }

  // ----- the serial reference system -----

  datatype SerialOp =
    | SCreate(data: ClaimData, at: int)
    | SView(claimId: string, viewer: Actor, at: int)
    | STransition(rid: nat, req: Request, now: int)

  predicate SerialEnabled(db: Db, op: SerialOp) {
    match op
    case SCreate(c, _) => Creatable(db.table, c)
    case SView(id, viewer, _) => id in db.table && viewer.kind != ""
    case STransition(_, req, _) => SerialAccepts(db, req)
  }

  function SerialNext(db: Db, op: SerialOp): Db
    requires SerialEnabled(db, op)
  {
    match op
    case SCreate(c, at) => CreateApply(db, c, at)
    case SView(id, viewer, at) => ViewApply(db, id, viewer, at)
    case STransition(_, req, now) => SerialApply(db, req, now)
  }

  // The database after `ops`, or `None` if one of them was not allowed when its turn came.
  function SerialRun(ops: seq<SerialOp>): Option<Db> {
    if ops == [] then Some(Db(map[], []))
    else
      var before := SerialRun(ops[..|ops| - 1]);
      var op := ops[|ops| - 1];
      if before.Some? && SerialEnabled(before.value, op) then Some(SerialNext(before.value, op)) else None
  }

  predicate Commits(s: System, step: Step) {
    && step.SwapStep? && Enabled(s, step) && step.dbOk
    && var f := s.reqs[step.rid]; SwapMatches(s.db.table, f.req.storeId, f.phase.copy, f.phase.ev)
  }

  // The serial operations of a schedule, in commit order.
  function Commit(s: System, step: Step): seq<SerialOp> {
    if !Enabled(s, step) then []
    else
      match step
      case CreateStep(c, at) => [SCreate(c, at)]
      case ViewStep(id, viewer, at) => [SView(id, viewer, at)]
      case SwapStep(rid, _) =>
        if Commits(s, step) then [STransition(rid, s.reqs[rid].req, s.reqs[rid].phase.ev.at)] else []
      case _ => []
  }

  function SerialOps(steps: seq<Step>): seq<SerialOp> {
    if steps == [] then []
    else SerialOps(steps[..|steps| - 1]) + Commit(Run(steps[..|steps| - 1]), steps[|steps| - 1])
  }

  // ----- rank: every handler moves a claim strictly down -----

  function Rank(s: Status): nat {
    match s
    case Pending => 3
    case NeedsReview => 3
    case OnHold => 2
    case Approved => 1
    case _ => 0
  }

  lemma HandlerLowersRank(c: ClaimData, req: Request)
    requires Accepts(c, req)
    ensures Rank(Target(req.action)) < Rank(c.status)
  {
  }

  // ----- the inductive invariant of the requests -----

  // What was read is either still there or has been overtaken for good.
  ghost predicate Fresh(t: Table, base: ClaimData) {
    base.id in t && (t[base.id].data == base || Rank(t[base.id].data.status) < Rank(base.status))
  }

  ghost predicate RequestInv(t: Table, f: InFlight) {
    match f.phase
    case Loaded(base) => Fresh(t, base) && base.id == f.req.claimId && base.storeId == f.req.storeId && RowInv(base)
    case Decided(base, copy, ev) =>
      && Fresh(t, base) && base.id == f.req.claimId && base.storeId == f.req.storeId && RowInv(base)
      && Decide(base, f.req, ev.at) == Ok((copy, ev))
    case _ => true
  }

  ghost predicate Inv(s: System) {
    && TableInv(s.db.table)
    && forall rid :: rid in s.reqs ==> RequestInv(s.db.table, s.reqs[rid])
  }

  // A swap that finds the status it expects finds the very row that was read, so writing the
  // private copy is the serial transition on the current table.
  lemma SwapIsSerial(s: System, rid: nat)
    requires Inv(s) && Commits(s, SwapStep(rid, true))
    ensures var f := s.reqs[rid];
            && SerialAccepts(s.db, f.req)
            && SwapFor(s, rid, true).db == SerialApply(s.db, f.req, f.phase.ev.at)
            && SwapFor(s, rid, true).reqs[rid].phase == Answered(Success(Target(f.req.action)))
  {
    var f := s.reqs[rid];
    assert RequestInv(s.db.table, f);
    DecideMeetsAccepts(f.phase.base, f.req, f.phase.ev.at);
    MergeIsOutcome(s.db.table[f.phase.base.id], f.req, f.phase.ev.at);
  }

  // Each step either leaves the database alone or performs one allowed serial operation on it.
  lemma StepIsSerial(s: System, step: Step)
    requires Inv(s)
    ensures |Commit(s, step)| <= 1
    ensures Commit(s, step) == [] ==> Next(s, step).db == s.db
    ensures Commit(s, step) != [] ==>
              && SerialEnabled(s.db, Commit(s, step)[0])
              && Next(s, step).db == SerialNext(s.db, Commit(s, step)[0])
  {
    if Commits(s, step) {
      SwapIsSerial(s, step.rid);
    }
  }

  // Rows never disappear, and a row that changed has a lower rank.
  ghost predicate TableDescends(t: Table, t': Table) {
    forall id :: id in t ==>
      id in t' && (t'[id] == t[id] || Rank(t'[id].data.status) < Rank(t[id].data.status))
  }

  lemma SerialDescends(db: Db, op: SerialOp)
    requires TableInv(db.table) && SerialEnabled(db, op)
    ensures TableInv(SerialNext(db, op).table)
    ensures TableDescends(db.table, SerialNext(db, op).table)
  {
    if op.STransition? {
      var row := db.table[op.req.claimId];
      OutcomeKeepsRowInv(row, op.req, op.now);
      HandlerLowersRank(row.data, op.req);
    }
  }

  lemma OthersStayFresh(t: Table, t': Table, f: InFlight)
    requires RequestInv(t, f) && TableDescends(t, t')
    ensures RequestInv(t', f)
  {
  }

  lemma ReadIsFresh(s: System, rid: nat, dbOk: bool)
    requires TableInv(s.db.table) && rid in s.reqs
    ensures RequestInv(s.db.table, Read(s, rid, dbOk).reqs[rid])
  {
  }

  lemma DecideKeepsRequestInv(s: System, rid: nat, now: int)
    requires rid in s.reqs && s.reqs[rid].phase.Loaded? && RequestInv(s.db.table, s.reqs[rid])
    ensures RequestInv(s.db.table, DecideFor(s, rid, now).reqs[rid])
  {
    DecideMeetsAccepts(s.reqs[rid].phase.base, s.reqs[rid].req, now);
  }

  // The request that the step belongs to.
  lemma OwnRequestKept(s: System, step: Step, rid: nat)
    requires Inv(s) && rid in Next(s, step).reqs
    requires rid !in s.reqs || Next(s, step).reqs[rid] != s.reqs[rid]
    ensures RequestInv(Next(s, step).db.table, Next(s, step).reqs[rid])
  {
    match step
    case ReadStep(r, dbOk) => ReadIsFresh(s, r, dbOk);
    case DecideStep(r, now) => DecideKeepsRequestInv(s, r, now);
    case _ =>
  }

  lemma NextKeepsInv(s: System, step: Step)
    requires Inv(s)
    ensures Inv(Next(s, step))
    ensures TableDescends(s.db.table, Next(s, step).db.table)
  {
    StepIsSerial(s, step);
    if Commit(s, step) != [] {
      SerialDescends(s.db, Commit(s, step)[0]);
    }
    var s' := Next(s, step);
    forall rid | rid in s'.reqs
      ensures RequestInv(s'.db.table, s'.reqs[rid])
    {
      if rid in s.reqs && s'.reqs[rid] == s.reqs[rid] {
        OthersStayFresh(s.db.table, s'.db.table, s.reqs[rid]);
      } else {
        OwnRequestKept(s, step, rid);
      }
    }
  }

  lemma {:induction false} RunKeepsInv(steps: seq<Step>)
    ensures Inv(Run(steps))
  {
    if steps != [] {
      RunKeepsInv(steps[..|steps| - 1]);
      NextKeepsInv(Run(steps[..|steps| - 1]), steps[|steps| - 1]);
    }
  }

  /** Refinement: for every interleaving, running the committed operations one at a time in
      commit order is always allowed and ends in exactly the same table and log. */
  lemma {:induction false} InterleavingRefinesSerial(steps: seq<Step>)
    ensures SerialRun(SerialOps(steps)) == Some(Run(steps).db)
  {
    if steps != [] {
      var before, step := steps[..|steps| - 1], steps[|steps| - 1];
      InterleavingRefinesSerial(before);
      RunKeepsInv(before);
      StepIsSerial(Run(before), step);
      var ops, last := SerialOps(before), Commit(Run(before), step);
      if last != [] {
        assert ops + last == ops + [last[0]];
        assert (ops + last)[..|ops + last| - 1] == ops;
      } else {
        assert ops + last == ops;
      }
    }
  }
}
