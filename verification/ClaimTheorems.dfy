/** What every schedule of admin requests keeps: answers match the audit log, each claim's
    audit trail is a legal path that pays at most once, and the customer's view only moves
    forward (internal/httpapi/public_status.go). */
module ClaimTheorems {
  import opened Common
  import opened ClaimDomain
  import opened ClaimStore
  import opened ClaimSystem
  import opened Sequences

  // ----- answers and the log -----

  function OpsOf(ops: seq<SerialOp>, rid: nat): seq<SerialOp> {
    if ops == [] then []
    else
      var op := ops[|ops| - 1];
      OpsOf(ops[..|ops| - 1], rid) + if op.STransition? && op.rid == rid then [op] else []
  }

  predicate Succeeded(s: System, rid: nat) {
    rid in s.reqs && s.reqs[rid].phase.Answered? && s.reqs[rid].phase.resp.Success?
  }

  // A request has one operation once it was told it succeeded, and none in every other case.
  ghost predicate AnswerMatches(s: System, ops: seq<SerialOp>, rid: nat) {
    if Succeeded(s, rid) then
      var req := s.reqs[rid].req;
      && s.reqs[rid].phase.resp.status == Target(req.action)
      && |OpsOf(ops, rid)| == 1 && OpsOf(ops, rid)[0].STransition? && OpsOf(ops, rid)[0].req == req
    else OpsOf(ops, rid) == []
  }

  lemma OpsOfSnoc(ops: seq<SerialOp>, op: SerialOp, rid: nat)
    ensures OpsOf(ops + [op], rid) == OpsOf(ops, rid) + if op.STransition? && op.rid == rid then [op] else []
  {
    assert (ops + [op])[..|ops|] == ops;
  }

  // Without a commit no request is told it succeeded.
  lemma QuietStepAnswers(s: System, step: Step, rid: nat)
    requires Inv(s) && Commit(s, step) == []
    ensures Succeeded(Next(s, step), rid) <==> Succeeded(s, rid)
    ensures Succeeded(s, rid) ==> Next(s, step).reqs[rid] == s.reqs[rid]
  {
    if Enabled(s, step) && step.DecideStep? {
      DecideMeetsAccepts(s.reqs[step.rid].phase.base, s.reqs[step.rid].req, step.now);
    }
  }

  // A commit by swap answers its own request and no other.
  lemma SwapAnswers(s: System, step: Step, rid: nat)
    requires Inv(s) && Commits(s, step)
    ensures !Succeeded(s, step.rid) && Succeeded(Next(s, step), step.rid)
    ensures Next(s, step).reqs[step.rid].req == s.reqs[step.rid].req
    ensures Next(s, step).reqs[step.rid].phase.resp.status == Target(s.reqs[step.rid].req.action)
    ensures rid != step.rid ==> (rid in Next(s, step).reqs <==> rid in s.reqs)
    ensures rid != step.rid && rid in s.reqs ==> Next(s, step).reqs[rid] == s.reqs[rid]
  {
    SwapIsSerial(s, step.rid);
  }

  lemma SwapStepAnswers(s: System, step: Step, ops: seq<SerialOp>, rid: nat)
    requires Inv(s) && AnswerMatches(s, ops, rid) && Commits(s, step)
    ensures AnswerMatches(Next(s, step), ops + Commit(s, step), rid)
  {
    SwapAnswers(s, step, rid);
    OpsOfSnoc(ops, Commit(s, step)[0], rid);
  }

  // Creations and looks are nobody's answer.
  lemma OtherCommitAnswers(s: System, step: Step, ops: seq<SerialOp>, rid: nat)
    requires AnswerMatches(s, ops, rid) && Commit(s, step) != [] && !Commits(s, step)
    ensures AnswerMatches(Next(s, step), ops + Commit(s, step), rid)
  {
    OpsOfSnoc(ops, Commit(s, step)[0], rid);
  }

  // A request changes its answer at most once, and only its own step changes it.
  lemma StepAnswers(s: System, step: Step, ops: seq<SerialOp>, rid: nat)
    requires Inv(s) && AnswerMatches(s, ops, rid)
    ensures AnswerMatches(Next(s, step), ops + Commit(s, step), rid)
  {
    if Commits(s, step) {
      SwapStepAnswers(s, step, ops, rid);
    } else if Commit(s, step) != [] {
      OtherCommitAnswers(s, step, ops, rid);
    } else {
      assert ops + Commit(s, step) == ops;
      QuietStepAnswers(s, step, rid);
    }
  }

  /** In every interleaving a success answer stands for exactly one serial transition, the one
      the request asked for; a request with any other answer, or none yet, changed nothing. */
  lemma {:induction false} EveryAnswerIsAccounted(steps: seq<Step>, rid: nat)
    ensures AnswerMatches(Run(steps), SerialOps(steps), rid)
  {
    if steps != [] {
      EveryAnswerIsAccounted(steps[..|steps| - 1], rid);
      RunKeepsInv(steps[..|steps| - 1]);
      StepAnswers(Run(steps[..|steps| - 1]), steps[|steps| - 1], SerialOps(steps[..|steps| - 1]), rid);
    }
  }

  /** At the moment a request is answered: a success wrote one row and one event, anything else
      wrote nothing. */
  lemma AnswerEffect(s: System, step: Step, rid: nat)
    requires Inv(s) && rid in s.reqs && !s.reqs[rid].phase.Answered?
    requires Next(s, step).reqs[rid].phase.Answered?
    ensures !Succeeded(Next(s, step), rid) ==> Next(s, step).db == s.db
    ensures Succeeded(Next(s, step), rid) ==>
              var req := s.reqs[rid].req;
              && SerialAccepts(s.db, req)
              && exists now :: Next(s, step).db == SerialApply(s.db, req, now)
  {
    if Commits(s, step) {
      SwapIsSerial(s, step.rid);
      assert Next(s, step).db == SerialApply(s.db, s.reqs[rid].req, s.reqs[rid].phase.ev.at);
    } else if step.DecideStep? {
      DecideMeetsAccepts(s.reqs[rid].phase.base, s.reqs[rid].req, step.now);
    }
  }

  /** A decided request is told "stale" exactly when the claim moved on after it was read. */
  lemma StaleMeansOvertaken(s: System, rid: nat)
    requires Inv(s) && rid in s.reqs && s.reqs[rid].phase.Decided?
    ensures Next(s, SwapStep(rid, true)).reqs[rid].phase == Answered(Stale) <==>
            s.db.table[s.reqs[rid].req.claimId].data != s.reqs[rid].phase.base
  {
    var f := s.reqs[rid];
    DecideMeetsAccepts(f.phase.base, f.req, f.phase.ev.at);
    assert RequestInv(s.db.table, f);
  }

  /** Three steps with nothing in between are the handler run alone, failures included. */
  lemma UninterruptedIsAlone(s: System, rid: nat, now: int, readOk: bool, swapOk: bool)
    requires rid in s.reqs && s.reqs[rid].phase == Arrived
    ensures var s3 := Next(Next(Next(s, ReadStep(rid, readOk)), DecideStep(rid, now)), SwapStep(rid, swapOk));
            var (db, resp) := HandleAlone(s.db, s.reqs[rid].req, now, readOk, swapOk);
            s3.db == db && s3.reqs[rid].phase == Answered(resp)
  {
    var req := s.reqs[rid].req;
    var s1 := Next(s, ReadStep(rid, readOk));
    if readOk && Lookup(s.db.table, req).Some? {
      var c := Lookup(s.db.table, req).value;
      var s2 := Next(s1, DecideStep(rid, now));
      if Decide(c, req, now).Err? {
        assert s2.reqs[rid].phase == Answered(Decide(c, req, now).error);
      } else {
        var (copy, ev) := Decide(c, req, now).value;
        assert s2.reqs[rid] == InFlight(req, Decided(c, copy, ev));
      }
    }
  }

  // ----- the audit trail of one claim -----

  predicate OnTrail(e: Event, id: string) {
    e.claimId == id && e.action != ViewContactAction
  }

  function Trail(log: seq<Event>, id: string): seq<Event> {
    if log == [] then []
    else Trail(log[..|log| - 1], id) + if OnTrail(log[|log| - 1], id) then [log[|log| - 1]] else []
  }

  lemma TrailSnoc(log: seq<Event>, e: Event, id: string)
    ensures Trail(log + [e], id) == Trail(log, id) + if OnTrail(e, id) then [e] else []
  {
    assert (log + [e])[..|log|] == log;
  }

  // A named actor's listed move, strictly down.
  predicate IsMove(e: Event) {
    e.action == TransitionAction && e.actor.kind != "" && Legal(e.from, e.to) && Rank(e.to) < Rank(e.from)
  }

  // A legal path from the customer's create event over named actors' moves to the current status,
  // ending at the stored instants.
  ghost predicate LegalPath(t: seq<Event>, c: ClaimData) {
    && |t| >= 1
    && t[0].action == CreateAction && t[0].from == OtherStatus("") && t[0].to in {Pending, NeedsReview, OnHold}
    && t[0].actor == Actor("customer", "")
    && (forall i :: 1 <= i < |t| ==> IsMove(t[i]) && t[i].from == t[i - 1].to)
    && t[|t| - 1].to == c.status
    && (IsTerminal(c.status) ==> c.resolvedAt == Some(t[|t| - 1].at))
    && (c.status == Paid ==> c.paidAt == Some(t[|t| - 1].at))
  }

  ghost predicate HistoryInv(db: Db) {
    && TableInv(db.table)
    && (forall id :: id in db.table ==> LegalPath(Trail(db.log, id), db.table[id].data))
    && (forall id :: id !in db.table ==> Trail(db.log, id) == [])
  }

  lemma PathSnoc(t: seq<Event>, c: ClaimData, e: Event, c': ClaimData)
    requires LegalPath(t, c)
    requires IsMove(e) && e.from == c.status
    requires c'.status == e.to && (IsTerminal(e.to) ==> c'.resolvedAt == Some(e.at)) && (e.to == Paid ==> c'.paidAt == Some(e.at))
    ensures LegalPath(t + [e], c')
  {
  }

  lemma ExtendPath(t: seq<Event>, row: Row, req: Request, now: int)
    requires LegalPath(t, row.data) && Accepts(row.data, req)
    ensures LegalPath(t + [RecordOf(row.data, req, now)], Outcome(row, req, now).data)
  {
    HandlerLowersRank(row.data, req);
    PathSnoc(t, row.data, RecordOf(row.data, req, now), Outcome(row, req, now).data);
  }

  lemma TransitionKeepsHistory(db: Db, req: Request, now: int, id: string)
    requires HistoryInv(db) && SerialAccepts(db, req) && id in db.table
    ensures LegalPath(Trail(SerialApply(db, req, now).log, id), SerialApply(db, req, now).table[id].data)
  {
    TrailSnoc(db.log, RecordOf(db.table[req.claimId].data, req, now), id);
    assert LegalPath(Trail(db.log, id), db.table[id].data);
    if id == req.claimId {
      ExtendPath(Trail(db.log, id), db.table[id], req, now);
    } else {
      assert Trail(SerialApply(db, req, now).log, id) == Trail(db.log, id);
    }
  }

  lemma CreateKeepsHistory(db: Db, c: ClaimData, at: int, id: string)
    requires HistoryInv(db) && Creatable(db.table, c)
    ensures id in db.table || id == c.id ==>
              LegalPath(Trail(CreateApply(db, c, at).log, id), CreateApply(db, c, at).table[id].data)
    ensures id !in db.table && id != c.id ==> Trail(CreateApply(db, c, at).log, id) == []
  {
    TrailSnoc(db.log, CreateApply(db, c, at).log[|db.log|], id);
    if id != c.id {
      assert Trail(CreateApply(db, c, at).log, id) == Trail(db.log, id);
    }
  }

  lemma SerialKeepsHistory(db: Db, op: SerialOp)
    requires HistoryInv(db) && SerialEnabled(db, op)
    ensures HistoryInv(SerialNext(db, op))
  {
    SerialDescends(db, op);
    forall id
      ensures id in SerialNext(db, op).table ==>
                LegalPath(Trail(SerialNext(db, op).log, id), SerialNext(db, op).table[id].data)
      ensures id !in SerialNext(db, op).table ==> Trail(SerialNext(db, op).log, id) == []
    {
      match op
      case SCreate(c, at) => CreateKeepsHistory(db, c, at, id);
      case SView(claimId, viewer, at) =>
        TrailSnoc(db.log, ViewApply(db, claimId, viewer, at).log[|db.log|], id);
        assert Trail(ViewApply(db, claimId, viewer, at).log, id) == Trail(db.log, id);
      case STransition(_, req, now) =>
        if id in db.table {
          TransitionKeepsHistory(db, req, now, id);
        } else {
          TrailSnoc(db.log, RecordOf(db.table[req.claimId].data, req, now), id);
        }
    }
  }

  lemma {:induction false} RunKeepsHistory(steps: seq<Step>)
    ensures HistoryInv(Run(steps).db)
  {
    if steps != [] {
      RunKeepsHistory(steps[..|steps| - 1]);
      RunKeepsInv(steps[..|steps| - 1]);
      StepIsSerial(Run(steps[..|steps| - 1]), steps[|steps| - 1]);
      var s, step := Run(steps[..|steps| - 1]), steps[|steps| - 1];
      if Commit(s, step) != [] {
        SerialKeepsHistory(s.db, Commit(s, step)[0]);
      }
    }
  }

  // Along a legal path the rank only falls, so no status is reached twice.
  lemma {:induction false} PathFalls(t: seq<Event>, c: ClaimData, i: nat, j: nat)
    requires LegalPath(t, c) && i <= j < |t|
    ensures Rank(t[j].to) + (j - i) <= Rank(t[i].to)
    decreases j
  {
    if i < j {
      PathFalls(t, c, i, j - 1);
    }
  }

  lemma PathIsShort(t: seq<Event>, c: ClaimData)
    requires LegalPath(t, c)
    ensures |t| <= 4
  {
    PathFalls(t, c, 0, |t| - 1);
  }

  lemma PaymentIsLast(t: seq<Event>, c: ClaimData, i: nat)
    requires LegalPath(t, c) && i < |t| && t[i].to == Paid
    ensures i == |t| - 1 && i >= 2 && t[i - 1].to == Approved
  {
    PathFalls(t, c, i, |t| - 1);
    assert i >= 1 && Legal(t[i].from, t[i].to);
  }

  ghost predicate PaysOnce(t: seq<Event>, c: ClaimData) {
    && (forall i :: 0 <= i < |t| && t[i].to == Paid ==> i == |t| - 1 && i >= 2 && t[i - 1].to == Approved)
    && (c.status == Paid <==> exists i :: 0 <= i < |t| && t[i].to == Paid)
  }

  lemma PathPaysOnce(t: seq<Event>, c: ClaimData)
    requires LegalPath(t, c)
    ensures PaysOnce(t, c)
  {
    forall i | 0 <= i < |t| && t[i].to == Paid
      ensures i == |t| - 1 && i >= 2 && t[i - 1].to == Approved
    {
      PaymentIsLast(t, c, i);
    }
  }

  /** In every reachable state a claim has at most three transitions; at most one of them is a
      payment, it is the last one and the approval stands right before it; and the payout
      fields are set exactly when the claim is paid, within the requested amount and on the
      route its payment method demands. */
  lemma PaidAtMostOnce(steps: seq<Step>, id: string)
    requires id in Run(steps).db.table
    ensures var t, c := Trail(Run(steps).db.log, id), Run(steps).db.table[id].data;
            LegalPath(t, c) && RowInv(c) && |t| <= 4 && PaysOnce(t, c)
  {
    RunKeepsHistory(steps);
    PathIsShort(Trail(Run(steps).db.log, id), Run(steps).db.table[id].data);
    PathPaysOnce(Trail(Run(steps).db.log, id), Run(steps).db.table[id].data);
  }

  // ----- what a success answer has written -----

  predicate Means(a: Action, s: Status) {
    match a
    case Approve => s == Approved
    case Reject => s == Rejected
    case Hold => s == OnHold
    case MarkPaid => s == Paid
  }

  // The event of a request's move.
  predicate Records(e: Event, req: Request) {
    e.claimId == req.claimId && e.action == TransitionAction && e.actor == req.actor && e.note == req.note
    && Means(req.action, e.to)
  }

  // The payout of a request, as its row shows it.
  predicate PaidAsSaid(c: ClaimData, req: Request) {
    && c.status == Paid && c.payoutMethod == req.route
    && c.paidAmountKrw == if req.sent == 0 then c.amountKrw else req.sent
  }

  ghost predicate Written(s: System, rid: nat) {
    Succeeded(s, rid) ==>
      var req := s.reqs[rid].req;
      && Means(req.action, s.reqs[rid].phase.resp.status)
      && (exists e :: e in s.db.log && Records(e, req))
      && (req.action == MarkPaid ==> req.claimId in s.db.table && PaidAsSaid(s.db.table[req.claimId].data, req))
  }

  lemma LogGrows(s: System, step: Step)
    requires Inv(s)
    ensures forall e :: e in s.db.log ==> e in Next(s, step).db.log
  {
    StepIsSerial(s, step);
  }

  lemma RecordStays(s: System, step: Step, req: Request)
    requires Inv(s) && exists e :: e in s.db.log && Records(e, req)
    ensures exists e :: e in Next(s, step).db.log && Records(e, req)
  {
    var e :| e in s.db.log && Records(e, req);
    LogGrows(s, step);
    assert e in Next(s, step).db.log;
  }

  lemma PaymentStays(s: System, step: Step, req: Request)
    requires Inv(s) && req.claimId in s.db.table && PaidAsSaid(s.db.table[req.claimId].data, req)
    ensures req.claimId in Next(s, step).db.table && PaidAsSaid(Next(s, step).db.table[req.claimId].data, req)
  {
    NextKeepsInv(s, step);
  }

  lemma WrittenStays(s: System, step: Step, rid: nat)
    requires Inv(s) && Written(s, rid) && Succeeded(s, rid) && rid in Next(s, step).reqs
    requires Next(s, step).reqs[rid] == s.reqs[rid]
    ensures Written(Next(s, step), rid)
  {
    var req := s.reqs[rid].req;
    RecordStays(s, step, req);
    if req.action == MarkPaid {
      PaymentStays(s, step, req);
    }
  }

  lemma SwapIsWritten(s: System, rid: nat)
    requires Inv(s) && Commits(s, SwapStep(rid, true))
    ensures Written(SwapFor(s, rid, true), rid)
  {
    SwapIsSerial(s, rid);
    var f := s.reqs[rid];
    var ev := RecordOf(s.db.table[f.req.claimId].data, f.req, f.phase.ev.at);
    assert ev in SwapFor(s, rid, true).db.log && Records(ev, f.req);
  }

  lemma StepIsWritten(s: System, step: Step, rid: nat)
    requires Inv(s) && Written(s, rid)
    ensures Written(Next(s, step), rid)
  {
    if Commits(s, step) && step.rid == rid {
      SwapIsWritten(s, rid);
    } else {
      if Commits(s, step) {
        SwapAnswers(s, step, rid);
      } else if Commit(s, step) == [] {
        QuietStepAnswers(s, step, rid);
      }
      if Succeeded(s, rid) {
        WrittenStays(s, step, rid);
      }
    }
  }

  /** In every interleaving a request that was told it succeeded has its move in the log, under its
      actor and with its note; and if it recorded a payment, the claim is paid ever after by the
      route and to the amount that this very request said. */
  lemma {:induction false} SuccessIsWritten(steps: seq<Step>, rid: nat)
    ensures Written(Run(steps), rid)
  {
    if steps != [] {
      SuccessIsWritten(steps[..|steps| - 1], rid);
      RunKeepsInv(steps[..|steps| - 1]);
      StepIsWritten(Run(steps[..|steps| - 1]), steps[|steps| - 1], rid);
    }
  }

  // ----- who handled a claim last -----

  function LastId(t: seq<Event>): string {
    if t == [] then ""
    else if t[|t| - 1].actor.id != "" then t[|t| - 1].actor.id
    else LastId(t[..|t| - 1])
  }

  ghost predicate HandlerIsLast(db: Db) {
    forall id :: id in db.table ==> db.table[id].resolvedBy == LastId(Trail(db.log, id))
  }

  lemma LastIdSnoc(t: seq<Event>, e: Event)
    ensures LastId(t + [e]) == if e.actor.id != "" then e.actor.id else LastId(t)
  {
    assert (t + [e])[..|t|] == t;
  }

  lemma SerialKeepsHandler(db: Db, op: SerialOp)
    requires HistoryInv(db) && HandlerIsLast(db) && SerialEnabled(db, op)
    ensures HandlerIsLast(SerialNext(db, op))
  {
    forall id | id in SerialNext(db, op).table
      ensures SerialNext(db, op).table[id].resolvedBy == LastId(Trail(SerialNext(db, op).log, id))
    {
      match op
      case SCreate(c, at) => CreateKeepsHandler(db, c, at, id);
      case SView(claimId, viewer, at) => NewestOnTrail(db.log, ViewEvent(claimId, viewer, at), id);
      case STransition(_, req, now) => TransitionKeepsHandler(db, req, now, id);
    }
  }

  lemma NewestOnTrail(log: seq<Event>, e: Event, id: string)
    ensures LastId(Trail(log + [e], id)) == if OnTrail(e, id) && e.actor.id != "" then e.actor.id else LastId(Trail(log, id))
  {
    TrailSnoc(log, e, id);
    LastIdSnoc(Trail(log, id), e);
    EmptyTail(Trail(log, id));
  }

  lemma CreateKeepsHandler(db: Db, c: ClaimData, at: int, id: string)
    requires HistoryInv(db) && HandlerIsLast(db) && Creatable(db.table, c) && id in CreateApply(db, c, at).table
    ensures CreateApply(db, c, at).table[id].resolvedBy == LastId(Trail(CreateApply(db, c, at).log, id))
  {
    NewestOnTrail(db.log, Event(c.id, CUSTOMER, CreateAction, OtherStatus(""), c.status, "", at), id);
  }

  lemma TransitionKeepsHandler(db: Db, req: Request, now: int, id: string)
    requires TableInv(db.table) && HandlerIsLast(db) && SerialAccepts(db, req) && id in db.table
    ensures SerialApply(db, req, now).table[id].resolvedBy == LastId(Trail(SerialApply(db, req, now).log, id))
  {
    ApplyWrites(db, req, now, id);
    NewestOnTrail(db.log, RecordOf(db.table[req.claimId].data, req, now), id);
  }

  lemma ApplyWrites(db: Db, req: Request, now: int, id: string)
    requires TableInv(db.table) && SerialAccepts(db, req) && id in db.table
    ensures var e, db' := RecordOf(db.table[req.claimId].data, req, now), SerialApply(db, req, now);
            && db'.log == db.log + [e] && (OnTrail(e, id) <==> id == req.claimId) && e.actor == req.actor
            && id in db'.table
            && db'.table[id].resolvedBy == if id == req.claimId && req.actor.id != "" then req.actor.id else db.table[id].resolvedBy
  {
  }

  /** In every run the handler stored with a claim is the last named user on its trail. */
  lemma {:induction false} HandlerIsLastOnTrail(steps: seq<Step>)
    ensures HandlerIsLast(Run(steps).db)
  {
    if steps != [] {
      var s, step := Run(steps[..|steps| - 1]), steps[|steps| - 1];
      HandlerIsLastOnTrail(steps[..|steps| - 1]);
      RunKeepsHistory(steps[..|steps| - 1]);
      RunKeepsInv(steps[..|steps| - 1]);
      StepIsSerial(s, step);
      if Commit(s, step) != [] {
        SerialKeepsHandler(s.db, Commit(s, step)[0]);
      }
    }
  }

  // ----- looks -----

  function LooksIn(log: seq<Event>): seq<Event> {
    if log == [] then []
    else LooksIn(log[..|log| - 1]) + if log[|log| - 1].action == ViewContactAction then [log[|log| - 1]] else []
  }

  // The looks of a schedule: by a named viewer, at a claim there is.
  function LooksTaken(steps: seq<Step>): seq<Event> {
    if steps == [] then []
    else
      var before, step := steps[..|steps| - 1], steps[|steps| - 1];
      LooksTaken(before)
      + if step.ViewStep? && step.viewer.kind != "" && step.claimId in Run(before).db.table
        then [Event(step.claimId, step.viewer, ViewContactAction, OtherStatus(""), OtherStatus(""), "", step.at)] else []
  }

  lemma LooksSnoc(log: seq<Event>, e: Event)
    ensures LooksIn(log + [e]) == LooksIn(log) + if e.action == ViewContactAction then [e] else []
  {
    assert (log + [e])[..|log|] == log;
  }

  lemma StepLooks(s: System, step: Step)
    requires Inv(s)
    ensures LooksIn(Next(s, step).db.log) == LooksIn(s.db.log)
            + if step.ViewStep? && step.viewer.kind != "" && step.claimId in s.db.table
              then [Event(step.claimId, step.viewer, ViewContactAction, OtherStatus(""), OtherStatus(""), "", step.at)] else []
  {
    StepIsSerial(s, step);
    if Commit(s, step) != [] {
      var e := SerialNext(s.db, Commit(s, step)[0]).log[|s.db.log|];
      assert Next(s, step).db.log == s.db.log + [e];
      LooksSnoc(s.db.log, e);
    }
  }

  /** In every interleaving the log holds each look at an account and phone number, and no other, in
      the order they were taken. */
  lemma {:induction false} LooksAreLogged(steps: seq<Step>)
    ensures LooksIn(Run(steps).db.log) == LooksTaken(steps)
  {
    if steps != [] {
      LooksAreLogged(steps[..|steps| - 1]);
      RunKeepsInv(steps[..|steps| - 1]);
      StepLooks(Run(steps[..|steps| - 1]), steps[|steps| - 1]);
    }
  }

  // ----- per-claim time order of the log -----

  function TimeOf(step: Step): Option<int> {
    match step
    case CreateStep(_, at) => Some(at)
    case ViewStep(_, _, at) => Some(at)
    case DecideStep(_, now) => Some(now)
    case _ => None
  }

  // A schedule whose clock readings never go back and never exceed `clock`.
  ghost predicate Clocked(steps: seq<Step>, clock: int) {
    steps == [] ||
    (var at := TimeOf(steps[|steps| - 1]);
     if at.Some? then at.value <= clock && Clocked(steps[..|steps| - 1], at.value)
     else Clocked(steps[..|steps| - 1], clock))
  }

  ghost predicate Ordered(t: seq<Event>, clock: int) {
    && (forall i, j :: 0 <= i < j < |t| ==> t[i].at <= t[j].at)
    && (forall i :: 0 <= i < |t| ==> t[i].at <= clock)
  }

  // The decision of a request that was not overtaken is later than everything on the trail.
  ghost predicate DecisionLast(s: System, rid: nat) {
    rid in s.reqs && s.reqs[rid].phase.Decided? ==>
      var ev, base := s.reqs[rid].phase.ev, s.reqs[rid].phase.base;
      base.id in s.db.table && s.db.table[base.id].data == base ==>
        forall e :: e in Trail(s.db.log, base.id) ==> e.at <= ev.at
  }

  ghost predicate ClockInv(s: System, clock: int) {
    && (forall id :: Ordered(Trail(s.db.log, id), clock))
    && (forall rid :: DecisionLast(s, rid))
    && (forall rid :: rid in s.reqs && s.reqs[rid].phase.Decided? ==> s.reqs[rid].phase.ev.at <= clock)
  }

  lemma OrderedSnoc(t: seq<Event>, e: Event, clock: int)
    requires Ordered(t, clock) && e.at <= clock && forall x :: x in t ==> x.at <= e.at
    ensures Ordered(t + [e], clock)
  {
  }

  // A new event that comes after the trail of its claim, not after `clock`.
  ghost predicate ComesLast(db: Db, db': Db, id: string, clock: int) {
    && |db'.log| == |db.log| + 1 && db.log <= db'.log
    && var e := db'.log[|db.log|];
       e.at <= clock && (OnTrail(e, id) ==> forall x :: x in Trail(db.log, id) ==> x.at <= e.at)
  }

  lemma SwapComesLast(s: System, step: Step, clock: int, id: string)
    requires Inv(s) && ClockInv(s, clock) && Commits(s, step)
    ensures ComesLast(s.db, Next(s, step).db, id, clock)
  {
    SwapIsSerial(s, step.rid);
    assert RequestInv(s.db.table, s.reqs[step.rid]);
    DecideMeetsAccepts(s.reqs[step.rid].phase.base, s.reqs[step.rid].req, s.reqs[step.rid].phase.ev.at);
    assert DecisionLast(s, step.rid);
  }

  lemma OtherComesLast(s: System, step: Step, id: string)
    requires HistoryInv(s.db) && Enabled(s, step) && (step.CreateStep? || step.ViewStep?)
    ensures ComesLast(s.db, Next(s, step).db, id, TimeOf(step).value)
  {
    if step.CreateStep? {
      assert Trail(s.db.log, step.data.id) == [];
    }
  }

  // The event a step appends comes after the trail of its claim.
  lemma AppendedIsLast(s: System, step: Step, clock: int, id: string)
    requires Inv(s) && HistoryInv(s.db) && ClockInv(s, clock) && Commit(s, step) != []
    requires TimeOf(step).Some? ==> clock <= TimeOf(step).value
    ensures ComesLast(s.db, Next(s, step).db, id, if TimeOf(step).Some? then TimeOf(step).value else clock)
  {
    if Commits(s, step) {
      SwapComesLast(s, step, clock, id);
    } else {
      OtherComesLast(s, step, id);
    }
  }

  lemma TrailsStayOrdered(s: System, step: Step, clock: int, id: string)
    requires Inv(s) && HistoryInv(s.db) && ClockInv(s, clock)
    requires TimeOf(step).Some? ==> clock <= TimeOf(step).value
    ensures Ordered(Trail(Next(s, step).db.log, id), if TimeOf(step).Some? then TimeOf(step).value else clock)
    ensures Trail(Next(s, step).db.log, id) == Trail(s.db.log, id) ||
            (exists e :: Trail(Next(s, step).db.log, id) == Trail(s.db.log, id) + [e])
  {
    var clock' := if TimeOf(step).Some? then TimeOf(step).value else clock;
    assert Ordered(Trail(s.db.log, id), clock);
    StepIsSerial(s, step);
    if Commit(s, step) != [] {
      AppendedIsLast(s, step, clock, id);
      var e := Next(s, step).db.log[|s.db.log|];
      assert Next(s, step).db.log == s.db.log + [e];
      TrailSnoc(s.db.log, e, id);
      if OnTrail(e, id) {
        assert Ordered(Trail(s.db.log, id), clock');
        OrderedSnoc(Trail(s.db.log, id), e, clock');
      } else {
        assert Trail(Next(s, step).db.log, id) == Trail(s.db.log, id);
      }
    }
  }

  // A fresh decision is later than everything logged so far.
  lemma NewDecisionIsLast(s: System, rid: nat, now: int, clock: int)
    requires ClockInv(s, clock) && clock <= now && rid in s.reqs && s.reqs[rid].phase.Loaded?
    ensures DecisionLast(DecideFor(s, rid, now), rid)
  {
  }

  lemma OldDecisionStaysLast(s: System, step: Step, clock: int, rid: nat)
    requires Inv(s) && ClockInv(s, clock) && Commit(s, step) != []
    requires rid in s.reqs && rid in Next(s, step).reqs && Next(s, step).reqs[rid] == s.reqs[rid]
    ensures DecisionLast(Next(s, step), rid)
  {
    if s.reqs[rid].phase.Decided? {
      var base := s.reqs[rid].phase.base;
      assert DecisionLast(s, rid) && RequestInv(s.db.table, s.reqs[rid]);
      StepIsSerial(s, step);
      SerialDescends(s.db, Commit(s, step)[0]);
      var e := Next(s, step).db.log[|s.db.log|];
      assert Next(s, step).db.log == s.db.log + [e];
      TrailSnoc(s.db.log, e, base.id);
      if OnTrail(e, base.id) {
        OwnEventMovesRow(s, step, base);
      } else {
        assert Trail(Next(s, step).db.log, base.id) == Trail(s.db.log, base.id);
      }
    }
  }

  lemma DecisionsStayLast(s: System, step: Step, clock: int, rid: nat)
    requires Inv(s) && ClockInv(s, clock)
    requires TimeOf(step).Some? ==> clock <= TimeOf(step).value
    ensures DecisionLast(Next(s, step), rid)
  {
    var s' := Next(s, step);
    if rid in s'.reqs && s'.reqs[rid].phase.Decided? {
      if Enabled(s, step) && step.DecideStep? && step.rid == rid {
        NewDecisionIsLast(s, rid, step.now, clock);
      } else {
        assert rid in s.reqs && s'.reqs[rid] == s.reqs[rid];
        if Commit(s, step) == [] {
          StepIsSerial(s, step);
          assert DecisionLast(s, rid);
        } else {
          OldDecisionStaysLast(s, step, clock, rid);
        }
      }
    }
  }

  // An event on the trail of a claim that was read before means that claim just moved on.
  lemma OwnEventMovesRow(s: System, step: Step, base: ClaimData)
    requires Inv(s) && Commit(s, step) != [] && Fresh(s.db.table, base) && base.id in s.db.table
    requires OnTrail(Next(s, step).db.log[|s.db.log|], base.id)
    ensures Next(s, step).db.table[base.id].data != base
  {
    StepIsSerial(s, step);
    if Commits(s, step) {
      SwapIsSerial(s, step.rid);
      HandlerLowersRank(s.db.table[base.id].data, s.reqs[step.rid].req);
    }
  }

  lemma StepKeepsClock(s: System, step: Step, clock: int)
    requires Inv(s) && HistoryInv(s.db) && ClockInv(s, clock)
    requires TimeOf(step).Some? ==> clock <= TimeOf(step).value
    ensures ClockInv(Next(s, step), if TimeOf(step).Some? then TimeOf(step).value else clock)
  {
    var s' := Next(s, step);
    forall id { TrailsStayOrdered(s, step, clock, id); }
    forall rid { DecisionsStayLast(s, step, clock, rid); }
    forall rid | rid in s'.reqs && s'.reqs[rid].phase.Decided? { DecisionsNotLate(s, step, clock, rid); }
  }

  lemma DecisionsNotLate(s: System, step: Step, clock: int, rid: nat)
    requires ClockInv(s, clock) && (TimeOf(step).Some? ==> clock <= TimeOf(step).value)
    requires rid in Next(s, step).reqs && Next(s, step).reqs[rid].phase.Decided?
    ensures Next(s, step).reqs[rid].phase.ev.at <= if TimeOf(step).Some? then TimeOf(step).value else clock
  {
  }

  lemma LaterClock(s: System, c0: int, c1: int)
    requires ClockInv(s, c0) && c0 <= c1
    ensures ClockInv(s, c1)
  {
  }

  lemma {:induction false} RunKeepsClock(steps: seq<Step>, clock: int)
    requires Clocked(steps, clock)
    ensures ClockInv(Run(steps), clock)
  {
    if steps != [] {
      var before, step := steps[..|steps| - 1], steps[|steps| - 1];
      var now := if TimeOf(step).Some? then TimeOf(step).value else clock;
      RunKeepsClock(before, now);
      RunKeepsInv(before);
      RunKeepsHistory(before);
      StepKeepsClock(Run(before), step, now);
      LaterClock(Run(steps), now, clock);
    }
  }

  /** With a clock that never goes back, each claim's trail is in time order when it is in commit
      order. */
  lemma TrailIsInTimeOrder(steps: seq<Step>, clock: int, id: string)
    requires Clocked(steps, clock)
    ensures var t := Trail(Run(steps).db.log, id);
            forall i, j :: 0 <= i < j < |t| ==> t[i].at <= t[j].at
  {
    RunKeepsClock(steps, clock);
    assert Ordered(Trail(Run(steps).db.log, id), clock);
  }

  // ----- reading the trail back (internal/store/claim.go, eventsFor) -----

  // Events are numbered as they are committed: an event's id is its place in the log.
  predicate Sooner(log: seq<Event>, i: nat, j: nat)
    requires i < |log| && j < |log|
  {
    log[i].at < log[j].at || (log[i].at == log[j].at && i < j)
  }

  predicate Places(log: seq<Event>, ids: seq<nat>) {
    forall k :: 0 <= k < |ids| ==> ids[k] < |log|
  }

  // The answer to WHERE claim_id = .. ORDER BY created_at, id, as event ids.
  ghost predicate ReadBack(log: seq<Event>, id: string, ids: seq<nat>) {
    && Places(log, ids)
    && (forall n: nat :: n in ids <==> n < |log| && log[n].claimId == id)
    && (forall a, b :: 0 <= a < b < |ids| ==> Sooner(log, ids[a], ids[b]))
  }

  // The events of the answer that are not mere looks.
  function TrailRead(log: seq<Event>, id: string, ids: seq<nat>): (out: seq<nat>)
    requires Places(log, ids)
    ensures Places(log, out)
  {
    if ids == [] then []
    else
      var n := ids[|ids| - 1];
      TrailRead(log, id, ids[..|ids| - 1]) + if OnTrail(log[n], id) then [n] else []
  }

  function EventsAt(log: seq<Event>, ids: seq<nat>): (events: seq<Event>)
    requires Places(log, ids)
    ensures |events| == |ids| && forall k :: 0 <= k < |ids| ==> events[k] == log[ids[k]]
  {
    seq(|ids|, k requires 0 <= k < |ids| => log[ids[k]])
  }

  ghost predicate Rising(ids: seq<nat>) {
    forall a, b :: 0 <= a < b < |ids| ==> ids[a] < ids[b]
  }

  ghost predicate PlacesInOrder(log: seq<Event>, id: string) {
    forall i, j :: 0 <= i < j < |log| && OnTrail(log[i], id) && OnTrail(log[j], id) ==> log[i].at <= log[j].at
  }

  lemma {:induction false} OnTrailInTrail(log: seq<Event>, id: string, i: nat)
    requires i < |log| && OnTrail(log[i], id)
    ensures log[i] in Trail(log, id)
  {
    if i < |log| - 1 {
      OnTrailInTrail(log[..|log| - 1], id, i);
    }
  }

  lemma {:induction false} TrailPlaces(log: seq<Event>, id: string, clock: int)
    requires Ordered(Trail(log, id), clock)
    ensures PlacesInOrder(log, id)
  {
    if log != [] {
      var n := |log| - 1;
      var init, t := log[..n], Trail(log[..n], id);
      assert forall a :: 0 <= a < |t| ==> Trail(log, id)[a] == t[a];
      TrailPlaces(init, id, clock);
      forall i | 0 <= i < n && OnTrail(log[i], id) && OnTrail(log[n], id)
        ensures log[i].at <= log[n].at
      {
        OnTrailInTrail(init, id, i);
        var a :| 0 <= a < |t| && t[a] == log[i];
        assert Trail(log, id)[|t|] == log[n];
      }
      forall i, j | 0 <= i < j < |log| && OnTrail(log[i], id) && OnTrail(log[j], id)
        ensures log[i].at <= log[j].at
      {
        assert init[i] == log[i] && (j < n ==> init[j] == log[j]);
      }
    }
  }

  lemma {:induction false} TrailReadAre(log: seq<Event>, id: string, ids: seq<nat>)
    requires Places(log, ids)
    requires forall a, b :: 0 <= a < b < |ids| ==> Sooner(log, ids[a], ids[b])
    requires PlacesInOrder(log, id)
    ensures forall n :: n in TrailRead(log, id, ids) <==> n in ids && n < |log| && OnTrail(log[n], id)
    ensures Rising(TrailRead(log, id, ids))
  {
    if ids != [] {
      var init, n := ids[..|ids| - 1], ids[|ids| - 1];
      TrailReadAre(log, id, init);
      assert ids == init + [n];
      var out := TrailRead(log, id, init);
      forall k | 0 <= k < |out| && OnTrail(log[n], id)
        ensures out[k] < n
      {
        assert out[k] in out;
        var a :| 0 <= a < |init| && init[a] == out[k];
        assert Sooner(log, ids[a], ids[|ids| - 1]);
      }
    }
  }

  // The places are rising and exactly those of the trail.
  ghost predicate TrailAt(log: seq<Event>, id: string, ids: seq<nat>) {
    Places(log, ids) && Rising(ids) && forall n: nat :: n in ids <==> n < |log| && OnTrail(log[n], id)
  }

  lemma PlacesBelow(log: seq<Event>, ids: seq<nat>, n: nat)
    requires n <= |log| && forall m :: m in ids ==> m < n
    ensures Places(log[..n], ids) && Places(log, ids) && EventsAt(log[..n], ids) == EventsAt(log, ids)
  {
    assert forall k :: 0 <= k < |ids| ==> ids[k] in ids;
  }

  lemma TrailAtInit(log: seq<Event>, id: string, ids: seq<nat>)
    requires log != [] && TrailAt(log, id, ids)
    ensures var n := |log| - 1;
            if OnTrail(log[n], id) then ids != [] && ids[|ids| - 1] == n && TrailAt(log[..n], id, ids[..|ids| - 1])
            else TrailAt(log[..n], id, ids)
  {
    var n := |log| - 1;
    if OnTrail(log[n], id) {
      LastPlace(ids, n);
      PlacesBelow(log, ids[..|ids| - 1], n);
    } else {
      PlacesBelow(log, ids, n);
    }
  }

  // Such places hold the trail.
  lemma {:induction false} TrailAtIsTrail(log: seq<Event>, id: string, ids: seq<nat>)
    requires TrailAt(log, id, ids)
    ensures EventsAt(log, ids) == Trail(log, id)
    decreases |log|
  {
    if log != [] {
      var n := |log| - 1;
      TrailAtInit(log, id, ids);
      if OnTrail(log[n], id) {
        var init := ids[..|ids| - 1];
        TrailAtIsTrail(log[..n], id, init);
        PlacesBelow(log, init, n);
        EventsSnoc(log, init, n);
        assert ids == init + [n];
      } else {
        TrailAtIsTrail(log[..n], id, ids);
        PlacesBelow(log, ids, n);
      }
    } else {
      FirstIn(ids);
    }
  }

  lemma FirstIn(ids: seq<nat>)
    ensures ids == [] || ids[0] in ids
  {
  }

  lemma LastPlace(ids: seq<nat>, n: nat)
    requires Rising(ids) && n in ids && forall m :: m in ids ==> m <= n
    ensures ids != [] && ids[|ids| - 1] == n
    ensures forall m :: m in ids[..|ids| - 1] <==> m in ids && m < n
  {
    var k :| 0 <= k < |ids| && ids[k] == n;
    assert ids[|ids| - 1] in ids;
    assert k == |ids| - 1;
    assert ids == ids[..k] + [n];
  }

  /** With a clock that never goes back, the events of a claim read back by time stamp and then id
      show, looks left aside, exactly the legal path in which they were committed - ties between
      stamps included. */
  lemma ReadBackIsTrail(steps: seq<Step>, clock: int, id: string, ids: seq<nat>)
    requires Clocked(steps, clock) && ReadBack(Run(steps).db.log, id, ids)
    ensures EventsAt(Run(steps).db.log, TrailRead(Run(steps).db.log, id, ids)) == Trail(Run(steps).db.log, id)
  {
    var log := Run(steps).db.log;
    RunKeepsClock(steps, clock);
    TrailPlaces(log, id, clock);
    TrailReadAre(log, id, ids);
    TrailAtIsTrail(log, id, TrailRead(log, id, ids));
  }

  // Looks are never anybody's approval or payment.
  lemma {:induction false} LooksDoNotCount(log: seq<Event>, id: string, ids: seq<nat>, to: Status, names: map<string, string>)
    requires Places(log, ids) && forall k :: 0 <= k < |ids| ==> log[ids[k]].claimId == id
    ensures LastWho(EventsAt(log, ids), to, names) == LastWho(EventsAt(log, TrailRead(log, id, ids)), to, names)
  {
    if ids != [] {
      var init, n := ids[..|ids| - 1], ids[|ids| - 1];
      LooksDoNotCount(log, id, init, to, names);
      EventsSnoc(log, init, n);
      assert ids == init + [n];
      WhoSnoc(EventsAt(log, init), log[n], to, names);
      if OnTrail(log[n], id) {
        EventsSnoc(log, TrailRead(log, id, init), n);
        WhoSnoc(EventsAt(log, TrailRead(log, id, init)), log[n], to, names);
      } else {
        assert TrailRead(log, id, ids) == TrailRead(log, id, init);
      }
    }
  }

  lemma WhoSnoc(events: seq<Event>, e: Event, to: Status, names: map<string, string>)
    ensures LastWho(events + [e], to, names) == if Reaches(e, to) then NameOf(e.actor, names) else LastWho(events, to, names)
  {
    assert (events + [e])[..|events|] == events;
  }

  lemma EventsSnoc(log: seq<Event>, ids: seq<nat>, n: nat)
    requires n < |log| && Places(log, ids)
    ensures Places(log, ids + [n]) && EventsAt(log, ids + [n]) == EventsAt(log, ids) + [log[n]]
  {
  }

  /** On the detail page of a paid claim, "paid by" is the actor of the last event of its trail and
      "approved by" the actor of the one before, however the stamps tie and whoever looked. */
  lemma PaidByIsLast(steps: seq<Step>, clock: int, id: string, ids: seq<nat>, names: map<string, string>)
    requires Clocked(steps, clock) && ReadBack(Run(steps).db.log, id, ids)
    requires id in Run(steps).db.table && Run(steps).db.table[id].data.status == Paid
    ensures var t, events := Trail(Run(steps).db.log, id), EventsAt(Run(steps).db.log, ids);
            && |t| >= 3
            && LastWho(events, Paid, names) == NameOf(t[|t| - 1].actor, names)
            && LastWho(events, Approved, names) == NameOf(t[|t| - 2].actor, names)
  {
    var log, c := Run(steps).db.log, Run(steps).db.table[id].data;
    var t := Trail(log, id);
    ReadBackIsTrail(steps, clock, id, ids);
    LooksDoNotCount(log, id, ids, Paid, names);
    LooksDoNotCount(log, id, ids, Approved, names);
    RunKeepsHistory(steps);
    PaymentIsLast(t, c, |t| - 1);
    LastWhoIsLast(t, Paid, names, |t| - 1);
    LastWhoIsLast(t, Approved, names, |t| - 2);
  }

  // ----- the customer's view -----

  datatype Stage = Waiting | StageApproved | Done | StageRejected

  datatype PublicView = PublicView(stage: Stage, receivedAt: Option<int>, reviewedAt: Option<int>, settledAt: Option<int>)

  function StageOf(s: Status): Stage {
    match s
    case Approved => StageApproved
    case Paid => Done
    case Rejected => StageRejected
    case _ => Waiting
  }

  const MINUTE := 60_000_000_000

  function MinuteStamp(t: Option<int>): Option<int> {
    if t.None? then None else Some(t.value / MINUTE * MINUTE)
  }

  function PublicStatus(c: ClaimData): PublicView {
    PublicView(StageOf(c.status), MinuteStamp(Some(c.createdAt)), MinuteStamp(c.resolvedAt),
               if StageOf(c.status) == StageRejected then None else MinuteStamp(c.paidAt))
  }

  function Progress(s: Stage): nat {
    match s
    case Waiting => 0
    case StageApproved => 1
    case _ => 2
  }

  lemma {:induction false} RunLast(steps: seq<Step>, more: seq<Step>)
    requires more != []
    ensures Run(steps + more) == Next(Run(steps + more[..|more| - 1]), more[|more| - 1])
  {
    ConcatLast(steps, more);
    TakeSnoc(steps + more[..|more| - 1], more[|more| - 1]);
  }

  lemma {:induction false} LaterRunDescends(steps: seq<Step>, more: seq<Step>)
    ensures TableDescends(Run(steps).db.table, Run(steps + more).db.table)
    decreases |more|
  {
    if more == [] {
      assert steps + more == steps;
    } else {
      var init := more[..|more| - 1];
      LaterRunDescends(steps, init);
      RunLast(steps, more);
      RunKeepsInv(steps + init);
      NextKeepsInv(Run(steps + init), more[|more| - 1]);
    }
  }

  // What a claim was created with and keeps.
  predicate SameClaim(c: ClaimData, c': ClaimData) {
    && c'.id == c.id && c'.storeId == c.storeId && c'.machineId == c.machineId && c'.createdAt == c.createdAt
    && c'.paymentMethod == c.paymentMethod && c'.amountKrw == c.amountKrw
  }

  lemma StepKeepsClaims(s: System, step: Step, id: string)
    requires Inv(s) && id in s.db.table
    ensures id in Next(s, step).db.table && SameClaim(s.db.table[id].data, Next(s, step).db.table[id].data)
  {
    StepIsSerial(s, step);
  }

  /** However a run goes on, no claim changes its id, store, machine, requested amount, payment method
      or time of receipt. */
  lemma {:induction false} LaterRunKeepsClaims(steps: seq<Step>, more: seq<Step>, id: string)
    requires id in Run(steps).db.table
    ensures id in Run(steps + more).db.table
            && SameClaim(Run(steps).db.table[id].data, Run(steps + more).db.table[id].data)
    decreases |more|
  {
    if more == [] {
      assert steps + more == steps;
    } else {
      var init := more[..|more| - 1];
      LaterRunKeepsClaims(steps, init, id);
      RunLast(steps, more);
      RunKeepsInv(steps + init);
      StepKeepsClaims(Run(steps + init), more[|more| - 1], id);
    }
  }

  // `stamp` is the minute that `t` falls in.
  predicate IsMinuteOf(stamp: int, t: int) {
    stamp % MINUTE == 0 && stamp <= t && t < stamp + 60_000_000_000
  }

  predicate ViewIs(v: PublicView, e: Event) {
    && (v.stage == Waiting <==> e.to in {Pending, NeedsReview, OnHold})
    && (v.stage == StageApproved <==> e.to == Approved)
    && (v.stage == Done <==> e.to == Paid)
    && (v.stage == StageRejected <==> e.to == Rejected)
    && (e.action == CreateAction ==> v.stage == Waiting)
    && (v.reviewedAt.Some? <==> e.to in {Paid, Rejected}) && (v.settledAt.Some? <==> e.to == Paid)
    && (v.reviewedAt.Some? ==> IsMinuteOf(v.reviewedAt.value, e.at))
    && (v.settledAt.Some? ==> v.settledAt == v.reviewedAt)
  }

  /** What the customer sees is the last event of the claim's trail: waiting after it was created or
      held, then approved, done or rejected as that event says; the times of review and payout are
      the minute of that event, shown exactly when it is final and, for the payout, a payment. */
  lemma ViewFollowsTrail(steps: seq<Step>, id: string)
    requires id in Run(steps).db.table
    ensures var t, v := Trail(Run(steps).db.log, id), PublicStatus(Run(steps).db.table[id].data);
            |t| >= 1 && ViewIs(v, t[|t| - 1])
  {
    RunKeepsHistory(steps);
    ViewOfPath(Trail(Run(steps).db.log, id), Run(steps).db.table[id].data);
  }

  lemma ViewOfPath(t: seq<Event>, c: ClaimData)
    requires LegalPath(t, c) && RowInv(c)
    ensures ViewIs(PublicStatus(c), t[|t| - 1])
  {
    Minutes(t[|t| - 1].at);
  }

  lemma Minutes(at: int)
    ensures IsMinuteOf(at / MINUTE * MINUTE, at)
  {
  }

  /** What the customer sees never moves back: a later look at the same claim shows the same
      stage or a later one, a finished claim shows exactly the same answer for ever, and a
      settled time is shown only, and always, at the done stage. */
  lemma StageOnlyMovesForward(steps: seq<Step>, more: seq<Step>, id: string)
    requires id in Run(steps).db.table
    ensures id in Run(steps + more).db.table
    ensures var v, v' := PublicStatus(Run(steps).db.table[id].data), PublicStatus(Run(steps + more).db.table[id].data);
            && Progress(v.stage) <= Progress(v'.stage)
            && (Progress(v.stage) == 2 ==> v' == v)
            && (v'.settledAt.Some? <==> v'.stage == Done)
            && v'.receivedAt == v.receivedAt && v.receivedAt.Some?
            && IsMinuteOf(v.receivedAt.value, Run(steps).db.table[id].data.createdAt)
  {
    LaterRunDescends(steps, more);
    LaterRunKeepsClaims(steps, more, id);
    Minutes(Run(steps).db.table[id].data.createdAt);
    RunKeepsInv(steps);
    RunKeepsInv(steps + more);
    assert RowInv(Run(steps).db.table[id].data) && RowInv(Run(steps + more).db.table[id].data);
  }
}
