/** The claim entity and its transition table (internal/domain/claim.go).

    Instants are nanoseconds since the Unix epoch. A zero Go time and a NULL column are both
    `None`; the clock is an argument wherever the source calls `time.Now()`. */
module ClaimDomain {
  import opened Common

  // `OtherStatus` stands for every string that is not one of the six listed codes,
  // among them the empty `From` of a create event.
  datatype Status = Pending | NeedsReview | OnHold | Approved | Rejected | Paid | OtherStatus(code: string)

  datatype PaymentMethod = Cash | Card | UnknownMethod

  const PAYOUT_DEEPLINK := "deeplink"
  const PAYOUT_MANUAL := "manual"
  const PAYOUT_CARD_VOID := "card_void"

  datatype Actor = Actor(kind: string, id: string)

  datatype EventAction = CreateAction | TransitionAction | ViewContactAction

  datatype Event = Event(claimId: string, actor: Actor, action: EventAction, from: Status, to: Status,
                         note: string, at: int)

  // The value of a claim struct at one moment.
  datatype ClaimData = ClaimData(
    id: string, storeId: string, machineId: string, paymentMethod: PaymentMethod, amountKrw: int,
    status: Status, createdAt: int, resolvedAt: Option<int>, paidAt: Option<int>,
    payoutMethod: string, paidAmountKrw: int)

  datatype MoveError = MissingActor | UnknownStatus | AlreadyThere | NotAllowed

  predicate Known(s: Status) {
    !s.OtherStatus?
  }

  predicate IsTerminal(s: Status) {
    s == Paid || s == Rejected
  }

  function Transitions(from: Status): seq<Status> {
    match from
    case Pending => [NeedsReview, OnHold, Approved, Rejected]
    case NeedsReview => [OnHold, Approved, Rejected]
    case OnHold => [NeedsReview, Approved, Rejected]
    case Approved => [Paid, Rejected]
    case _ => []
  }

  predicate Legal(from: Status, to: Status) {
    to in Transitions(from)
  }

  // The claim after a successful transition, field by field.
  function Moved(c: ClaimData, to: Status, now: int): ClaimData {
    c.(status := to,
       resolvedAt := if IsTerminal(to) then Some(now) else c.resolvedAt,
       paidAt := if to == Paid then Some(now) else c.paidAt)
  }

  function MoveEvent(c: ClaimData, to: Status, who: Actor, note: string, now: int): Event {
    Event(c.id, who, TransitionAction, c.status, to, note, now)
  }

  // What the customer's payment method demands of the recorded payout route.
  predicate RouteMatches(p: PaymentMethod, route: string) {
    if p == Card then route == PAYOUT_CARD_VOID
    else route == PAYOUT_DEEPLINK || route == PAYOUT_MANUAL
  }

  // Zero in the request means "the full requested amount was sent".
  function SentAmount(requested: int, sent: int): int {
    if sent == 0 then requested else sent
  }

  predicate PaymentAccepted(c: ClaimData, route: string, sent: int) {
    RouteMatches(c.paymentMethod, route) && 0 < SentAmount(c.amountKrw, sent) <= c.amountKrw
  }

  /** The mutable struct that a request handler works on. */
  class Claim {
    const id: string
    const storeId: string
    const machineId: string
    const paymentMethod: PaymentMethod
    const amountKrw: int
    const createdAt: int
    var status: Status
    var resolvedAt: Option<int>
    var paidAt: Option<int>
    var payoutMethod: string
    var paidAmountKrw: int

    constructor (d: ClaimData)
      ensures Value() == d
    {
      id, storeId, machineId := d.id, d.storeId, d.machineId;
      paymentMethod, amountKrw, createdAt := d.paymentMethod, d.amountKrw, d.createdAt;
      status, resolvedAt, paidAt := d.status, d.resolvedAt, d.paidAt;
      payoutMethod, paidAmountKrw := d.payoutMethod, d.paidAmountKrw;
    }

    function Value(): ClaimData
      reads this
    {
      ClaimData(id, storeId, machineId, paymentMethod, amountKrw, status, createdAt, resolvedAt,
                paidAt, payoutMethod, paidAmountKrw)
    }

    // The error of an attempted move; `None` means the move is allowed.
    method TransitionError(to: Status) returns (err: Option<MoveError>)
      ensures err.None? <==> Legal(status, to)
      ensures err == Some(AlreadyThere) <==> to == status
    {
      if to == status {
        return Some(AlreadyThere);
      }
      var allowed := Transitions(status);
      var i := 0;
      while i < |allowed|
        invariant 0 <= i <= |allowed|
        invariant to !in allowed[..i]
      {
        if allowed[i] == to {
          return None;
        }
        i := i + 1;
      }
      assert allowed[..i] == allowed;
      return Some(NotAllowed);
    }

    method Transition(to: Status, who: Actor, note: string, now: int) returns (r: Result<Event, MoveError>)
      modifies this
      ensures r.Ok? <==> who.kind != "" && Legal(old(status), to)
      ensures r.Err? ==> Value() == old(Value())
      ensures r.Ok? ==> Value() == Moved(old(Value()), to, now)
      ensures r.Ok? ==> r.value == MoveEvent(old(Value()), to, who, note, now)
    {
      if who.kind == "" {
        return Err(MissingActor);
      }
      if !Known(to) {
        return Err(UnknownStatus);
      }
      var err := TransitionError(to);
      if err.Some? {
        return Err(err.value);
      }
      var from := status;
      status := to;
      if IsTerminal(to) {
        resolvedAt := Some(now);
      }
      if to == Paid {
        paidAt := Some(now);
      }
      return Ok(Event(id, who, TransitionAction, from, to, note, now));
    }

    // The checks of the mark-paid handler. A failed amount check leaves the route already
    // written on the private copy; the handler then drops the copy.
    method RecordPayment(route: string, sent: int) returns (ok: bool)
      modifies this`payoutMethod, this`paidAmountKrw
      ensures ok <==> PaymentAccepted(old(Value()), route, sent)
      ensures ok ==> payoutMethod == route && paidAmountKrw == SentAmount(amountKrw, sent)
      ensures !ok ==> paidAmountKrw == old(paidAmountKrw)
      ensures payoutMethod == route || payoutMethod == old(payoutMethod)
    {
      if paymentMethod == Card {
        if route != PAYOUT_CARD_VOID {
          return false;
        }
        payoutMethod := route;
      } else if route == PAYOUT_DEEPLINK || route == PAYOUT_MANUAL {
        payoutMethod := route;
      } else {
        return false;
      }
      var paid := sent;
      if paid == 0 {
        paid := amountKrw;
      }
      if paid <= 0 {
        return false;
      }
      if paid > amountKrw {
        return false;
      }
      paidAmountKrw := paid;
      return true;
    }
  }

  /** The table read by where a claim is going: approval from any open status, rejection from those and
      from an approval, payment from an approval alone, holding and review from the open statuses
      before them; nothing leaves a terminal status, and nothing stays where it is. */
  lemma MovesExactly(from: Status, to: Status)
    ensures var open := from == Pending || from == NeedsReview || from == OnHold;
            Legal(from, to) <==>
            || (to == Approved && open) || (to == Rejected && (open || from == Approved)) || (to == Paid && from == Approved)
            || (to == OnHold && open && from != OnHold) || (to == NeedsReview && open && from != NeedsReview)
  {
  }

  /** The table alone has a cycle, so no ranking of statuses decreases along every listed move:
      bounds on the number of transitions need the handlers, not just the table. */
  lemma TableHasNoRanking(rank: Status -> int)
    ensures exists from, to :: Legal(from, to) && rank(to) >= rank(from)
  {
    if rank(OnHold) >= rank(NeedsReview) {
      assert Legal(NeedsReview, OnHold);
    } else {
      assert Legal(OnHold, NeedsReview);
    }
  }
}
