/** The claims table and its audit log (internal/store/claim.go), and the admin handler that
    drives them (internal/httpapi/admin_claims.go).

    A transaction is atomic: when `dbOk` is false the database reported an error and nothing
    was written. */
module ClaimStore {
  import opened Common
  import opened ClaimDomain

  datatype Row = Row(data: ClaimData, resolvedBy: string)

  type Table = map<string, Row>

  datatype Db = Db(table: Table, log: seq<Event>)

  datatype ApplyResult = Applied | RowMissing | DbFailed

  // The compare-and-swap UPDATE: a NULL, empty or zero argument keeps the stored column.
  function Merge(row: Row, c: ClaimData, actorId: string): Row {
    Row(row.data.(status := c.status,
                  resolvedAt := if c.resolvedAt.None? then row.data.resolvedAt else c.resolvedAt,
                  paidAt := if c.paidAt.None? then row.data.paidAt else c.paidAt,
                  payoutMethod := if c.payoutMethod == "" then row.data.payoutMethod else c.payoutMethod,
                  paidAmountKrw := if c.paidAmountKrw == 0 then row.data.paidAmountKrw else c.paidAmountKrw),
        if actorId == "" then row.resolvedBy else actorId)
  }

  predicate SwapMatches(t: Table, storeId: string, c: ClaimData, ev: Event) {
    c.id in t && t[c.id].data.storeId == storeId && t[c.id].data.status == ev.from
  }

  function Swap(db: Db, storeId: string, c: ClaimData, ev: Event, dbOk: bool): (Db, ApplyResult) {
    if !dbOk then (db, DbFailed)
    else if !SwapMatches(db.table, storeId, c, ev) then (db, RowMissing)
    else (Db(db.table[c.id := Merge(db.table[c.id], c, ev.actor.id)], db.log + [ev]), Applied)
  }

  datatype Action = Approve | Reject | Hold | MarkPaid

  function Target(a: Action): Status {
    match a
    case Approve => Approved
    case Reject => Rejected
    case Hold => OnHold
    case MarkPaid => Paid
  }

  datatype Request = Request(storeId: string, claimId: string, action: Action, actor: Actor,
                             note: string, route: string, sent: int)

  datatype Response = Success(status: Status) | BadRequest | NotFound | InvalidTransition | Stale | InternalError

  // The decision a handler takes on its private copy: the copy to write and its audit event.
  function Decide(c: ClaimData, req: Request, now: int): Result<(ClaimData, Event), Response> {
    if req.action == MarkPaid && !PaymentAccepted(c, req.route, req.sent) then Err(BadRequest)
    else if req.actor.kind == "" || !Legal(c.status, Target(req.action)) then Err(InvalidTransition)
    else
      var c1 := if req.action == MarkPaid
                then c.(payoutMethod := req.route, paidAmountKrw := SentAmount(c.amountKrw, req.sent))
                else c;
      Ok((Moved(c1, Target(req.action), now), MoveEvent(c, Target(req.action), req.actor, req.note, now)))
  }

  function Lookup(t: Table, req: Request): Option<ClaimData> {
    if req.claimId in t && t[req.claimId].data.storeId == req.storeId then Some(t[req.claimId].data) else None
  }

  /** The handler run without interruption, step after step as the source writes it; `readOk` and
      `swapOk` tell whether the database answers the read and the swap. */
  function HandleAlone(db: Db, req: Request, now: int, readOk: bool, swapOk: bool): (Db, Response) {
    if !readOk then (db, InternalError)
    else
      match Lookup(db.table, req)
      case None => (db, NotFound)
      case Some(c) =>
        match Decide(c, req, now)
        case Err(e) => (db, e)
        case Ok((copy, ev)) =>
          var (db', res) := Swap(db, req.storeId, copy, ev, swapOk);
          (db', match res
                case Applied => Success(copy.status)
                case RowMissing => Stale
                case DbFailed => InternalError)
  }

  // The audit event of a look at a claim's account and phone number.
  function ViewEvent(claimId: string, viewer: Actor, at: int): Event {
    Event(claimId, viewer, ViewContactAction, OtherStatus(""), OtherStatus(""), "", at)
  }

  datatype ReadError = NoSuchClaim | ReadFailed

  class Store {
    var table: Table
    var log: seq<Event>

    constructor ()
      ensures Value() == Db(map[], [])
    {
      table, log := map[], [];
    }

    function Value(): Db
      reads this
    {
      Db(table, log)
    }

    method InsertEvent(ev: Event)
      modifies this`log
      ensures log == old(log) + [ev]
    {
      log := log + [ev];
    }

    // A named viewer's look is logged; the claim is returned even if that fails.
    method ClaimByID(storeId: string, id: string, viewer: Actor, now: int, readOk: bool, logOk: bool)
      returns (r: Result<ClaimData, ReadError>)
      modifies this`log
      ensures r.Ok? <==> readOk && id in table && table[id].data.storeId == storeId
      ensures r.Ok? ==> r.value == table[id].data
      ensures r.Err? ==> r.error == if readOk then NoSuchClaim else ReadFailed
      ensures log == old(log) + if r.Ok? && viewer.kind != "" && logOk then [ViewEvent(id, viewer, now)] else []
    {
      if !readOk {
        return Err(ReadFailed);
      }
      if id !in table || table[id].data.storeId != storeId {
        return Err(NoSuchClaim);
      }
      if viewer.kind != "" && logOk {
        InsertEvent(ViewEvent(id, viewer, now));
      }
      return Ok(table[id].data);
    }

    method ApplyTransition(storeId: string, c: ClaimData, ev: Event, dbOk: bool) returns (r: ApplyResult)
      modifies this
      ensures (Value(), r) == Swap(old(Value()), storeId, c, ev, dbOk)
    {
      if !dbOk {
        return DbFailed;
      }
      if c.id !in table || table[c.id].data.storeId != storeId || table[c.id].data.status != ev.from {
        return RowMissing;
      }
      table := table[c.id := Merge(table[c.id], c, ev.actor.id)];
      InsertEvent(ev);
      return Applied;
    }

    // Read, decide on a private copy, then swap (the handler with no other request in between).
    method HandleTransition(req: Request, now: int, readOk: bool, swapOk: bool) returns (resp: Response)
      modifies this
      ensures (Value(), resp) == HandleAlone(old(Value()), req, now, readOk, swapOk)
    {
      var found := ClaimByID(req.storeId, req.claimId, Actor("", ""), now, readOk, true);
      assert log == old(log);
      if found.Err? {
        return if found.error == NoSuchClaim then NotFound else InternalError;
      }
      var c := new Claim(found.value);
      if req.action == MarkPaid {
        var ok := c.RecordPayment(req.route, req.sent);
        if !ok {
          return BadRequest;
        }
      }
      var moved := c.Transition(Target(req.action), req.actor, req.note, now);
      if moved.Err? {
        return InvalidTransition;
      }
      var res := ApplyTransition(req.storeId, c.Value(), moved.value, swapOk);
      match res {
        case RowMissing => return Stale;
        case DbFailed => return InternalError;
        case Applied => return Success(c.status);
      }
    }
  }

  // ----- what one request does to one row, written without copies, merges or swaps -----

  predicate Accepts(c: ClaimData, req: Request) {
    && req.actor.kind != ""
    && (match req.action
        case Approve => c.status in {Pending, NeedsReview, OnHold}
        case Reject => c.status in {Pending, NeedsReview, OnHold, Approved}
        case Hold => c.status in {Pending, NeedsReview}
        case MarkPaid =>
          && c.status == Approved
          && (if c.paymentMethod == Card then req.route == "card_void" else req.route in {"deeplink", "manual"})
          && (if req.sent == 0 then 0 < c.amountKrw else 0 < req.sent <= c.amountKrw))
  }

  function Outcome(row: Row, req: Request, now: int): Row {
    var by' := if req.actor.id == "" then row.resolvedBy else req.actor.id;
    match req.action
    case Approve => Row(row.data.(status := Approved), by')
    case Hold => Row(row.data.(status := OnHold), by')
    case Reject => Row(row.data.(status := Rejected, resolvedAt := Some(now)), by')
    case MarkPaid =>
      Row(row.data.(status := Paid, resolvedAt := Some(now), paidAt := Some(now), payoutMethod := req.route,
                    paidAmountKrw := if req.sent == 0 then row.data.amountKrw else req.sent), by')
  }

  function RecordOf(c: ClaimData, req: Request, now: int): Event {
    Event(c.id, req.actor, TransitionAction, c.status, Target(req.action), req.note, now)
  }

  // The serial system's only way to change a claim.
  predicate SerialAccepts(db: Db, req: Request) {
    Lookup(db.table, req).Some? && Accepts(Lookup(db.table, req).value, req)
  }

  function SerialApply(db: Db, req: Request, now: int): Db
    requires SerialAccepts(db, req)
  {
    var row := db.table[req.claimId];
    Db(db.table[req.claimId := Outcome(row, req, now)], db.log + [RecordOf(row.data, req, now)])
  }

  // ----- the invariant that ties status, timestamps and payout fields -----

  ghost predicate RowInv(c: ClaimData) {
    && Known(c.status)
    && c.amountKrw > 0
    && (c.resolvedAt.Some? <==> IsTerminal(c.status))
    && (c.paidAt.Some? <==> c.status == Paid)
    && (c.payoutMethod != "" <==> c.status == Paid)
    && (c.paidAmountKrw != 0 <==> c.status == Paid)
    && (c.status == Paid ==>
          && 1 <= c.paidAmountKrw <= c.amountKrw
          && RouteMatches(c.paymentMethod, c.payoutMethod)
          && c.paidAt == c.resolvedAt)
  }

  ghost predicate TableInv(t: Table) {
    forall id :: id in t ==> t[id].data.id == id && RowInv(t[id].data)
  }

  lemma DecideMeetsAccepts(c: ClaimData, req: Request, now: int)
    ensures Decide(c, req, now).Ok? <==> Accepts(c, req)
    ensures Decide(c, req, now).Ok? ==>
              var (copy, ev) := Decide(c, req, now).value;
              ev == RecordOf(c, req, now) && copy.id == c.id
  {
  }

  // Merging a decided copy into the very row it was read from gives the serial outcome.
  lemma MergeIsOutcome(row: Row, req: Request, now: int)
    requires RowInv(row.data) && Decide(row.data, req, now).Ok?
    ensures Merge(row, Decide(row.data, req, now).value.0, req.actor.id) == Outcome(row, req, now)
  {
    DecideMeetsAccepts(row.data, req, now);
  }

  lemma OutcomeKeepsRowInv(row: Row, req: Request, now: int)
    requires RowInv(row.data) && Accepts(row.data, req)
    ensures RowInv(Outcome(row, req, now).data)
  {
  }

  /** The handler run alone: it succeeds exactly when the database answers and the serial system
      accepts the request, its effect is then the serial one, every other answer changes nothing,
      and none of them is "stale". */
  lemma AloneIsSerial(db: Db, req: Request, now: int, readOk: bool, swapOk: bool)
    requires TableInv(db.table)
    ensures var (db', resp) := HandleAlone(db, req, now, readOk, swapOk);
            && (resp.Success? <==> readOk && swapOk && SerialAccepts(db, req))
            && (resp.Success? ==> db' == SerialApply(db, req, now) && resp.status == Target(req.action))
            && (!resp.Success? ==> db' == db && resp != Stale)
  {
    if Lookup(db.table, req).Some? {
      var row := db.table[req.claimId];
      DecideMeetsAccepts(row.data, req, now);
      if Accepts(row.data, req) {
        MergeIsOutcome(row, req, now);
      }
    }
  }

  // The statuses an action can start from.
  predicate StartsFrom(a: Action, s: Status) {
    match a
    case Approve => s == Pending || s == NeedsReview || s == OnHold
    case Reject => s == Pending || s == NeedsReview || s == OnHold || s == Approved
    case Hold => s == Pending || s == NeedsReview
    case MarkPaid => s == Approved
  }

  // The route fits how the customer paid, and what was sent is positive and within the request.
  predicate PayoutFits(c: ClaimData, req: Request) {
    && (if c.paymentMethod == Card then req.route == "card_void" else req.route == "deeplink" || req.route == "manual")
    && (if req.sent == 0 then c.amountKrw > 0 else 0 < req.sent && req.sent <= c.amountKrw)
  }

  /** Each answer of the handler run alone, by plain conditions: no such claim in the store, a payout
      that does not fit, then an unnamed actor or a status the action cannot start from, then the
      database. */
  lemma AnswersExactly(db: Db, req: Request, now: int, readOk: bool, swapOk: bool)
    requires TableInv(db.table)
    ensures var resp := HandleAlone(db, req, now, readOk, swapOk).1;
            if !readOk then resp == InternalError
            else if !(req.claimId in db.table && db.table[req.claimId].data.storeId == req.storeId) then resp == NotFound
            else
              var c := db.table[req.claimId].data;
              var bad := req.action == MarkPaid && !PayoutFits(c, req);
              var allowed := req.actor.kind != "" && StartsFrom(req.action, c.status);
              && (resp == BadRequest <==> bad)
              && (resp == InvalidTransition <==> !bad && !allowed)
              && (resp == InternalError <==> !bad && allowed && !swapOk)
              && (resp.Success? <==> !bad && allowed && swapOk)
  {
    AloneIsSerial(db, req, now, readOk, swapOk);
  }

  // ----- who approved, who paid: the loop of the claim detail view -----

  function NameOf(a: Actor, names: map<string, string>): string {
    if a.id in names && names[a.id] != "" then names[a.id] else if a.kind == "link" then "Slack 링크" else ""
  }

  /** The name shown is the user's own, or the link's label for a nameless one who came by link, or
      nothing. */
  lemma NameShown(a: Actor, names: map<string, string>)
    ensures a.id in names && names[a.id] != "" ==> NameOf(a, names) == names[a.id]
    ensures (a.id in names ==> names[a.id] == "") ==> (NameOf(a, names) != "" <==> a.kind == "link")
  {
  }

  predicate Reaches(e: Event, to: Status) {
    e.action == TransitionAction && e.to == to
  }

  // Who made the last of these events that reached a status; empty if none did.
  function LastWho(events: seq<Event>, to: Status, names: map<string, string>): string {
    if events == [] then ""
    else if Reaches(events[|events| - 1], to) then NameOf(events[|events| - 1].actor, names)
    else LastWho(events[..|events| - 1], to, names)
  }

  // One pass over the events; a later approval overwrites an earlier one.
  method Handlers(events: seq<Event>, names: map<string, string>) returns (approvedBy: string, paidBy: string)
    ensures approvedBy == LastWho(events, Approved, names)
    ensures paidBy == LastWho(events, Paid, names)
  {
    approvedBy, paidBy := "", "";
    for k := 0 to |events|
      invariant approvedBy == LastWho(events[..k], Approved, names)
      invariant paidBy == LastWho(events[..k], Paid, names)
    {
      var e := events[k];
      assert events[..k + 1][..k] == events[..k];
      if e.action == TransitionAction {
        var who := NameOf(e.actor, names);
        if e.to == Approved {
          approvedBy := who;
        } else if e.to == Paid {
          paidBy := who;
        }
      }
    }
    assert events[..|events|] == events;
  }

  /** The name shown is that of the actor of the last transition to the status. */
  lemma {:induction false} LastWhoIsLast(events: seq<Event>, to: Status, names: map<string, string>, i: nat)
    requires i < |events| && Reaches(events[i], to) && forall j :: i < j < |events| ==> !Reaches(events[j], to)
    ensures LastWho(events, to, names) == NameOf(events[i].actor, names)
  {
    if i < |events| - 1 {
      LastWhoIsLast(events[..|events| - 1], to, names, i);
    }
  }
}
