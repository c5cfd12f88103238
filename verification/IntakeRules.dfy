/** The risk facts read from the claims table (internal/store/query.go) and what they guarantee
    when submissions are handled one after the other. */
module IntakeRules {
  import opened Common
  import opened ClaimDomain
  import opened Risk
  import opened Sequences

  // `assessedAt` is the clock reading the risk facts were taken with; `initial` the status the
  // claim was stored with. An empty account means none was asked for.
  datatype StoredClaim = StoredClaim(
    storeId: string, idemKey: string, machine: string, phone: string, account: string, amountKrw: int,
    photos: nat, assessedAt: int, createdAt: int, initial: Status, status: Status, paidAmountKrw: int)

  type Claims = seq<StoredClaim>

  datatype FlagKind = PhoneFlag | AccountFlag

  datatype Flag = Flag(storeId: string, kind: FlagKind, identity: string, manualStatus: string)

  datatype Query = Query(storeId: string, machine: string, phone: string, account: string, now: int)

  predicate FlagApplies(g: Flag, q: Query) {
    g.storeId == q.storeId
    && ((g.kind == PhoneFlag && g.identity == q.phone) || (g.kind == AccountFlag && g.identity == q.account))
  }

  // The strongest manual status among the rows, normal when there is none above it.
  ghost predicate IsStrongest(best: string, flags: seq<Flag>, q: Query) {
    && (forall g :: g in flags && FlagApplies(g, q) ==> ContactRank(g.manualStatus) <= ContactRank(best))
    && (best == CONTACT_NORMAL || exists g :: g in flags && FlagApplies(g, q) && g.manualStatus == best)
  }

  method StrongestContactStatus(flags: seq<Flag>, q: Query) returns (best: string)
    ensures IsStrongest(best, flags, q)
  {
    best := CONTACT_NORMAL;
    var i := 0;
    while i < |flags|
      invariant 0 <= i <= |flags|
      invariant IsStrongest(best, flags[..i], q)
    {
      var g := flags[i];
      assert g in flags[..i + 1];
      assert forall x :: x in flags[..i + 1] <==> x in flags[..i] || x == g;
      if FlagApplies(g, q) && ContactRank(g.manualStatus) > ContactRank(best) {
        best := g.manualStatus;
      }
      i := i + 1;
    }
    assert flags[..i] == flags;
  }

  // A mark of the store on the phone number, or on the account.
  ghost predicate Marked(flags: seq<Flag>, q: Query, status: string) {
    exists g :: g in flags && g.storeId == q.storeId && g.manualStatus == status
                && ((g.kind.PhoneFlag? && g.identity == q.phone) || (g.kind.AccountFlag? && g.identity == q.account))
  }

  /** The strongest mark is "blocked" exactly if phone or account is so marked in this store, "watch"
      exactly if one of them is and neither is blocked, and otherwise "normal". */
  lemma StrongestExactly(best: string, flags: seq<Flag>, q: Query)
    requires IsStrongest(best, flags, q)
    requires forall g :: g in flags ==> g.manualStatus in {"normal", "watch", "blocked"}
    ensures best == if Marked(flags, q, "blocked") then "blocked" else if Marked(flags, q, "watch") then "watch" else "normal"
  {
    if Marked(flags, q, "blocked") {
      var g :| g in flags && FlagApplies(g, q) && g.manualStatus == "blocked";
      assert ContactRank(best) == 2;
    } else if Marked(flags, q, "watch") {
      var g :| g in flags && FlagApplies(g, q) && g.manualStatus == "watch";
      assert ContactRank(best) >= 1;
    }
  }

  predicate RecentOfPhone(c: StoredClaim, phone: string, now: int) {
    c.phone == phone && c.createdAt >= now - WINDOW_30D
  }

  function PhoneIndices(t: Claims, phone: string, now: int): set<nat> {
    set i: nat | 0 <= i < |t| && RecentOfPhone(t[i], phone, now)
  }

  function PhonesOfAccount(t: Claims, account: string): set<string> {
    set i: nat | 0 <= i < |t| && t[i].account == account :: t[i].phone
  }

  // What was actually sent for paid claims; a paid row without its own amount counts in full.
  function PaidTotal(t: Claims, phone: string, now: int): int {
    if t == [] then 0
    else
      var c := t[|t| - 1];
      PaidTotal(t[..|t| - 1], phone, now)
      + if RecentOfPhone(c, phone, now) && c.status == Paid
        then (if c.paidAmountKrw != 0 then c.paidAmountKrw else c.amountKrw) else 0
  }

  function LastSameMachine(t: Claims, phone: string, machine: string): Option<int> {
    if t == [] then None
    else
      var c, before := t[|t| - 1], LastSameMachine(t[..|t| - 1], phone, machine);
      if c.phone == phone && c.machine == machine && (before.None? || before.value < c.createdAt)
      then Some(c.createdAt) else before
  }

  function FactsFor(t: Claims, q: Query, amountKrw: int, manual: string): Facts {
    Facts(amountKrw, |PhoneIndices(t, q.phone, q.now)| + 1, PaidTotal(t, q.phone, q.now),
          |PhonesOfAccount(t, q.account) - {q.phone}| + 1, q.account != "", manual,
          LastSameMachine(t, q.phone, q.machine), q.now)
  }

  datatype Op =
    | Submit(query: Query, idemKey: string, amountKrw: int, photos: nat, manual: string, createdAt: int)
    | Settle(index: nat, status: Status, paidAmountKrw: int)

  predicate Accepted(t: Claims, op: Op, p: Policy)
    requires op.Submit?
  {
    && ValidAmount(op.amountKrw, p) && (RequiresPhoto(op.amountKrw, p) ==> op.photos > 0)
    && (forall c :: c in t ==> !(c.storeId == op.query.storeId && c.idemKey == op.idemKey))
    && !Evaluate(FactsFor(t, op.query, op.amountKrw, op.manual), p).rejectDuplicate
  }

  function Stored(t: Claims, op: Op, p: Policy): StoredClaim
    requires op.Submit?
  {
    var status := Evaluate(FactsFor(t, op.query, op.amountKrw, op.manual), p).status;
    StoredClaim(op.query.storeId, op.idemKey, op.query.machine, op.query.phone, op.query.account, op.amountKrw,
                op.photos, op.query.now, op.createdAt, status, status, 0)
  }

  // A rejected or repeated submission stores nothing; settling changes only status and payout.
  function Next(t: Claims, op: Op, p: Policy): Claims {
    match op
    case Submit(_, _, _, _, _, _) => if Accepted(t, op, p) then t + [Stored(t, op, p)] else t
    case Settle(i, status, paid) => if i < |t| then t[i := t[i].(status := status, paidAmountKrw := paid)] else t
  }

  function Run(ops: seq<Op>, p: Policy): Claims {
    if ops == [] then [] else Next(Run(ops[..|ops| - 1], p), ops[|ops| - 1], p)
  }

  lemma {:induction false} LastIsLatest(t: Claims, phone: string, machine: string, i: nat)
    requires i < |t| && t[i].phone == phone && t[i].machine == machine
    ensures LastSameMachine(t, phone, machine).Some?
    ensures t[i].createdAt <= LastSameMachine(t, phone, machine).value
  {
    if i < |t| - 1 {
      LastIsLatest(t[..|t| - 1], phone, machine, i);
    }
  }

  lemma {:induction false} LastIsAttained(t: Claims, phone: string, machine: string)
    ensures var last := LastSameMachine(t, phone, machine);
            last.Some? ==> exists i :: 0 <= i < |t| && t[i].phone == phone && t[i].machine == machine
                                       && t[i].createdAt == last.value
  {
    if t != [] {
      var n := |t| - 1;
      LastIsAttained(t[..n], phone, machine);
      var before := LastSameMachine(t[..n], phone, machine);
      if before.Some? {
        var i :| 0 <= i < n && t[..n][i].phone == phone && t[..n][i].machine == machine
                 && t[..n][i].createdAt == before.value;
        assert t[i].createdAt == before.value && t[i].phone == phone && t[i].machine == machine;
      }
    }
  }

  // What a claim adds to the total of a phone.
  predicate InTotal(c: StoredClaim, phone: string, now: int) {
    c.status == Paid && c.phone == phone && c.createdAt >= now - 30 * 24 * 3_600_000_000_000
  }

  function SentFor(c: StoredClaim): int {
    if c.paidAmountKrw == 0 then c.amountKrw else c.paidAmountKrw
  }

  function CountsFor(c: StoredClaim, phone: string, now: int): int {
    if InTotal(c, phone, now) then SentFor(c) else 0
  }

  lemma TotalSnoc(t: Claims, c: StoredClaim, phone: string, now: int)
    ensures PaidTotal(t + [c], phone, now) == PaidTotal(t, phone, now) + CountsFor(c, phone, now)
  {
    TakeSnoc(t, c);
  }

  /** Settling a claim in any way moves its phone's total of the last 30 days by what that claim now
      counts for less what it counted for before. */
  lemma {:induction false} SettlingMovesTotal(t: Claims, i: nat, status: Status, amount: int, phone: string, now: int)
    requires i < |t|
    ensures var c' := t[i].(status := status, paidAmountKrw := amount);
            PaidTotal(t[i := c'], phone, now)
            == PaidTotal(t, phone, now) + CountsFor(c', phone, now) - CountsFor(t[i], phone, now)
  {
    var n, c' := |t| - 1, t[i].(status := status, paidAmountKrw := amount);
    SplitLast(t);
    TotalSnoc(t[..n], t[n], phone, now);
    if i < n {
      SettlingMovesTotal(t[..n], i, status, amount, phone, now);
      UpdateInFront(t, i, c');
      TotalSnoc(t[..n][i := c'], t[n], phone, now);
    } else {
      UpdateLast(t, c');
      TotalSnoc(t[..n], c', phone, now);
    }
  }

  /** Without paid claims there is no total. */
  lemma {:induction false} NothingPaid(t: Claims, phone: string, now: int)
    requires forall c :: c in t ==> c.status != Paid
    ensures PaidTotal(t, phone, now) == 0
  {
    if t != [] {
      NothingPaid(t[..|t| - 1], phone, now);
    }
  }

  // The status a submission calls for, by the counts over the table and what was marked and paid.
  function StatusFor(t: Claims, op: Op, p: Policy): Status
    requires op.Submit?
  {
    var q := op.query;
    var count := |set i: nat | i < |t| && t[i].phone == q.phone && t[i].createdAt >= q.now - 30 * 24 * 3_600_000_000_000| + 1;
    var phones := |(set i: nat | i < |t| && t[i].account == q.account :: t[i].phone) - {q.phone}| + 1;
    if op.manual == "blocked" || count >= p.repeatHoldCount then OnHold
    else if op.manual == "watch" || count >= p.repeatWatchCount || (q.account != "" && phones >= p.accountSharingPhones)
            || PaidTotal(t, q.phone, q.now) > p.payoutCeilingKrw || op.amountKrw >= p.reviewThresholdKrw
    then NeedsReview
    else Pending
  }

  /** A submission is stored exactly if its amount is valid, it has the photo it needs, its key is free
      and no claim of its phone on its machine is younger than the window; it is then stored with its
      own details and the status those counts call for. */
  lemma SubmitExactly(t: Claims, op: Op, p: Policy)
    requires op.Submit?
    ensures var q := op.query;
            var fits := 0 < op.amountKrw <= p.maxAmountKrw && (op.amountKrw >= p.reviewThresholdKrw ==> op.photos > 0);
            var free := forall i :: 0 <= i < |t| ==> t[i].storeId != q.storeId || t[i].idemKey != op.idemKey;
            var spaced := forall i :: 0 <= i < |t| && t[i].phone == q.phone && t[i].machine == q.machine ==>
                                     q.now - t[i].createdAt >= p.rapidDuplicateWindow;
            var s := StatusFor(t, op, p);
            Next(t, op, p) == if fits && free && spaced
                              then t + [StoredClaim(q.storeId, op.idemKey, q.machine, q.phone, q.account, op.amountKrw,
                                                    op.photos, q.now, op.createdAt, s, s, 0)]
                              else t
  {
    StatusIs(t, op, p);
    DuplicateIs(t, op, p);
    assert (forall c :: c in t ==> !(c.storeId == op.query.storeId && c.idemKey == op.idemKey)) <==>
           forall i :: 0 <= i < |t| ==> t[i].storeId != op.query.storeId || t[i].idemKey != op.idemKey;
  }

  lemma StatusIs(t: Claims, op: Op, p: Policy)
    requires op.Submit?
    ensures Evaluate(FactsFor(t, op.query, op.amountKrw, op.manual), p).status == StatusFor(t, op, p)
  {
    var q := op.query;
    StatusExact(FactsFor(t, q, op.amountKrw, op.manual), p);
    assert PhoneIndices(t, q.phone, q.now)
           == set i: nat | i < |t| && t[i].phone == q.phone && t[i].createdAt >= q.now - 30 * 24 * 3_600_000_000_000;
    assert PhonesOfAccount(t, q.account) == set i: nat | i < |t| && t[i].account == q.account :: t[i].phone;
  }

  lemma DuplicateIs(t: Claims, op: Op, p: Policy)
    requires op.Submit?
    ensures Evaluate(FactsFor(t, op.query, op.amountKrw, op.manual), p).rejectDuplicate <==>
            exists i :: 0 <= i < |t| && t[i].phone == op.query.phone && t[i].machine == op.query.machine
                        && op.query.now - t[i].createdAt < p.rapidDuplicateWindow
  {
    var q := op.query;
    LastIsAttained(t, q.phone, q.machine);
    if i :| 0 <= i < |t| && t[i].phone == q.phone && t[i].machine == q.machine
            && q.now - t[i].createdAt < p.rapidDuplicateWindow {
      LastIsLatest(t, q.phone, q.machine, i);
    }
  }

  function Settled(c: StoredClaim, amount: int): StoredClaim {
    c.(status := Paid, paidAmountKrw := amount)
  }

  /** Paying a claim raises its phone's total by what was sent, if the claim is within 30 days,
      and nobody else's. */
  lemma {:induction false} PaymentRaisesTotal(t: Claims, i: nat, amount: int, phone: string, now: int)
    requires i < |t| && t[i].status != Paid && amount != 0
    ensures PaidTotal(t[i := Settled(t[i], amount)], phone, now)
            == PaidTotal(t, phone, now) + if RecentOfPhone(t[i], phone, now) then amount else 0
  {
    var n, t' := |t| - 1, t[i := Settled(t[i], amount)];
    if i < n {
      assert t'[..n] == t[..n][i := Settled(t[i], amount)];
      PaymentRaisesTotal(t[..n], i, amount, phone, now);
    } else {
      assert t'[..n] == t[..n];
    }
  }

  /** A phone that was sent more than the ceiling within 30 days gets no claim through as pending. */
  lemma CeilingBinds(t: Claims, op: Op, p: Policy)
    requires op.Submit? && PaidTotal(t, op.query.phone, op.query.now) > p.payoutCeilingKrw
    ensures Stored(t, op, p).initial != Pending
  {
    StatusExact(FactsFor(t, op.query, op.amountKrw, op.manual), p);
  }

  // What holds of the claim at index n, judged by the claims up to and including it.
  ghost predicate ClaimOk(t: Claims, n: nat, p: Policy)
    requires n < |t|
  {
    var c := t[n];
    && c.initial in {Pending, NeedsReview, OnHold}
    && (RequiresPhoto(c.amountKrw, p) ==> c.photos > 0 && c.initial != Pending)
    && (|PhoneIndices(t[..n + 1], c.phone, c.assessedAt)| >= p.repeatHoldCount ==> c.initial == OnHold)
    && (c.account != "" && |PhonesOfAccount(t[..n + 1], c.account)| >= p.accountSharingPhones ==> c.initial != Pending)
    && (forall i :: 0 <= i < n && t[i].phone == c.phone && t[i].machine == c.machine ==>
          && c.assessedAt - t[i].createdAt >= p.rapidDuplicateWindow
          && (c.assessedAt <= c.createdAt ==> c.createdAt - t[i].createdAt >= p.rapidDuplicateWindow))
  }

  ghost predicate Inv(t: Claims, p: Policy) {
    forall n :: 0 <= n < |t| ==> ClaimOk(t, n, p)
  }

  lemma PhoneCountGrows(t: Claims, c: StoredClaim, now: int)
    ensures |PhoneIndices(t + [c], c.phone, now)|
            == |PhoneIndices(t, c.phone, now)| + if c.createdAt >= now - WINDOW_30D then 1 else 0
  {
    assert PhoneIndices(t + [c], c.phone, now)
           == PhoneIndices(t, c.phone, now) + if c.createdAt >= now - WINDOW_30D then {|t|} else {};
  }

  lemma AccountPhonesGrow(t: Claims, c: StoredClaim)
    ensures PhonesOfAccount(t + [c], c.account) == (PhonesOfAccount(t, c.account) - {c.phone}) + {c.phone}
  {
    var t' := t + [c];
    assert t'[|t|] == c;
    forall x | x in PhonesOfAccount(t, c.account)
      ensures x in PhonesOfAccount(t', c.account)
    {
      var i: nat :| i < |t| && t[i].account == c.account && t[i].phone == x;
      assert t'[i] == t[i];
    }
  }

  /** The facts count the claim being submitted: they equal the sizes of the sets over the table
      that already contains it. */
  lemma FactsIncludeThisClaim(t: Claims, op: Op, p: Policy)
    requires op.Submit? && op.createdAt >= op.query.now - WINDOW_30D
    ensures FactsFor(t, op.query, op.amountKrw, op.manual).phoneClaims30d
            == |PhoneIndices(t + [Stored(t, op, p)], op.query.phone, op.query.now)|
    ensures FactsFor(t, op.query, op.amountKrw, op.manual).accountDistinctPhones
            == |PhonesOfAccount(t + [Stored(t, op, p)], op.query.account)|
  {
    PhoneCountGrows(t, Stored(t, op, p), op.query.now);
    AccountPhonesGrow(t, Stored(t, op, p));
  }

  // The status a submission is stored with, against the sets over the table that contains it.
  lemma NewStatus(t: Claims, op: Op, p: Policy)
    requires op.Submit? && Accepted(t, op, p)
    ensures var c, t' := Stored(t, op, p), t + [Stored(t, op, p)];
            && c.initial in {Pending, NeedsReview, OnHold}
            && (RequiresPhoto(c.amountKrw, p) ==> c.photos > 0 && c.initial != Pending)
            && (|PhoneIndices(t', c.phone, c.assessedAt)| >= p.repeatHoldCount ==> c.initial == OnHold)
            && (c.account != "" && |PhonesOfAccount(t', c.account)| >= p.accountSharingPhones ==> c.initial != Pending)
  {
    PhoneCountGrows(t, Stored(t, op, p), op.query.now);
    AccountPhonesGrow(t, Stored(t, op, p));
    StatusExact(FactsFor(t, op.query, op.amountKrw, op.manual), p);
  }

  lemma NewDistance(t: Claims, op: Op, p: Policy, i: nat)
    requires op.Submit? && Accepted(t, op, p) && i < |t|
    requires t[i].phone == op.query.phone && t[i].machine == op.query.machine
    ensures op.query.now - t[i].createdAt >= p.rapidDuplicateWindow
  {
    LastIsLatest(t, op.query.phone, op.query.machine, i);
  }

  lemma NewClaimOk(t: Claims, op: Op, p: Policy)
    requires op.Submit? && Accepted(t, op, p)
    ensures ClaimOk(t + [Stored(t, op, p)], |t|, p)
  {
    var c, t' := Stored(t, op, p), t + [Stored(t, op, p)];
    NewStatus(t, op, p);
    assert t'[..|t| + 1] == t';
    forall i | 0 <= i < |t| && t'[i].phone == c.phone && t'[i].machine == c.machine
      ensures c.assessedAt - t'[i].createdAt >= p.rapidDuplicateWindow
    {
      NewDistance(t, op, p, i);
    }
  }

  lemma SubmitKeepsInv(t: Claims, op: Op, p: Policy)
    requires op.Submit? && Inv(t, p) && Accepted(t, op, p)
    ensures Inv(t + [Stored(t, op, p)], p)
  {
    var t' := t + [Stored(t, op, p)];
    NewClaimOk(t, op, p);
    forall n | 0 <= n < |t|
      ensures ClaimOk(t', n, p)
    {
      assert ClaimOk(t, n, p);
      assert t'[..n + 1] == t[..n + 1];
    }
  }

  lemma SettleKeepsInv(t: Claims, op: Op, p: Policy)
    requires op.Settle? && Inv(t, p)
    ensures Inv(Next(t, op, p), p)
  {
    var t' := Next(t, op, p);
    forall n | 0 <= n < |t'|
      ensures ClaimOk(t', n, p)
    {
      assert ClaimOk(t, n, p);
      assert PhoneIndices(t'[..n + 1], t[n].phone, t[n].assessedAt) == PhoneIndices(t[..n + 1], t[n].phone, t[n].assessedAt);
      SameAccounts(t[..n + 1], t'[..n + 1], t[n].account);
    }
  }

  lemma SameAccounts(t: Claims, t': Claims, account: string)
    requires |t| == |t'| && forall i :: 0 <= i < |t| ==> t[i].account == t'[i].account && t[i].phone == t'[i].phone
    ensures PhonesOfAccount(t, account) == PhonesOfAccount(t', account)
  {
  }

  /** In every serial run: a stored claim was assessed at least the duplicate window after each
      earlier claim of its phone on its machine, and is that much younger unless the database's
      clock is behind the server's; a claim that brings its phone to the hold count within 30 days was
      stored on hold; one that brings its account to the sharing count was not left pending; and
      no claim that needs a photo is without one or was left pending. */
  lemma {:induction false} SerialIntakeRules(ops: seq<Op>, p: Policy)
    ensures Inv(Run(ops, p), p)
  {
    if ops != [] {
      var t, op := Run(ops[..|ops| - 1], p), ops[|ops| - 1];
      SerialIntakeRules(ops[..|ops| - 1], p);
      if op.Settle? {
        SettleKeepsInv(t, op, p);
      } else if Accepted(t, op, p) {
        SubmitKeepsInv(t, op, p);
      }
    }
  }
}
