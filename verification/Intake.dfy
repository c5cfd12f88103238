/** Concurrent claim intake and photo purge (internal/httpapi/public.go,
    internal/store/claim.go, internal/worker/worker.go).

    Every submission runs step by step - key lookup, risk evaluation, one photo at a time,
    insert-if-absent, clean-up - and any number of them interleave with the purge worker. Each
    media or database call may fail. A schedule is any sequence of steps; a step that is not
    enabled does nothing. Photo rows are indexed by their object key, which the server draws
    fresh for each photo. */
module Intake {
  import opened Common
  import opened ClaimDomain
  import opened Risk

  type Key = string

  datatype Config = Config(policy: Policy, retention: int)

  datatype PhotoRow = PhotoRow(claimId: nat, expiresAt: int)

  // `keys` and `expiresAt` remember what the claim was created with; `createdAt` is the
  // database's clock.
  datatype ClaimRec = ClaimRec(id: nat, storeId: string, idemKey: string, machine: string, phone: string,
                               amountKrw: int, status: Status, keys: seq<Key>, expiresAt: int, createdAt: int)

  // A parsed form: where and from whom, the amount, the number of photos and the retry key.
  datatype Form = Form(storeId: string, idemKey: string, machine: string, phone: string, amountKrw: int, photos: nat)

  datatype MachineLookup = MachineFound | MachineUnknown | MachineFailed

  // The answers to the checks before the key lookup; `count` is the machine's hourly counter,
  // absent when the cache failed.
  datatype Gate = Gate(machine: MachineLookup, issueOk: bool, count: Option<int>)

  datatype Reply = Created(id: nat) | Existing(id: nat) | Duplicate | Refused | NoMachine | Limited | Failed

  datatype Stage =
    | Started
    | Checked
    | Writing(status: Status, written: seq<Key>, attempt: nat)
    | Conflicted(status: Status, written: seq<Key>, attempt: nat)
    | Cleaning(reply: Reply, left: seq<Key>)
    | Replied(reply: Reply)

  datatype Handler = Handler(form: Form, stage: Stage)

  datatype Purge = Idle | Purging(left: seq<Key>, fileDone: bool)

  // `created` lists the claims of the create events, in commit order. History variables: `owner`
  // records which submission drew a key, `orphans` the files whose deletion failed, `missing` the
  // rows whose file the purge deleted before the row.
  datatype System = System(
    claims: set<ClaimRec>, rows: map<Key, PhotoRow>, media: set<Key>, created: seq<nat>, handlers: map<nat, Handler>,
    purge: Purge, clock: int, owner: map<Key, nat>, orphans: set<Key>, missing: set<Key>)

  // `facts` holds what the risk read takes from elsewhere: paid totals, shared accounts and marks.
  datatype Step =
    | Submit(h: nat, form: Form, gate: Gate)
    | LookupKey(h: nat, dbOk: bool)
    | AssessRisk(h: nat, facts: Facts, now: int, dbOk: bool)
    | PutPhoto(h: nat, key: Key, ok: bool)
    | InsertClaim(h: nat, id: nat, now: int, createdAt: int, dbOk: bool)
    | ReadWinner(h: nat, visible: bool, dbOk: bool)
    | CleanOne(h: nat, ok: bool)
    | StartPurge(now: int, batch: seq<Key>)
    | PurgeFile(ok: bool)
    | PurgeRow(ok: bool)

  const INIT := System({}, map[], {}, [], map[], Idle, 0, map[], {}, {})

  const PURGE_BATCH := 200
  const MACHINE_CLAIMS_PER_HOUR := 20

  predicate SameKey(c: ClaimRec, f: Form) {
    c.storeId == f.storeId && c.idemKey == f.idemKey
  }

  predicate Taken(claims: set<ClaimRec>, f: Form) {
    exists c :: c in claims && SameKey(c, f)
  }

  ghost function Holder(claims: set<ClaimRec>, f: Form): (c: ClaimRec)
    requires Taken(claims, f)
    ensures c in claims && SameKey(c, f)
  {
    var c :| c in claims && SameKey(c, f);
    c
  }

  // ----- the checks before the key lookup -----

  predicate Acceptable(f: Form, p: Policy) {
    ValidAmount(f.amountKrw, p) && (RequiresPhoto(f.amountKrw, p) ==> f.photos > 0)
  }

  // The answer that ends the request at the gate, if any.
  function GateReply(f: Form, g: Gate, p: Policy): Option<Reply> {
    if !ValidAmount(f.amountKrw, p) then Some(Refused)
    else if g.machine.MachineUnknown? then Some(NoMachine)
    else if g.machine.MachineFailed? then Some(Failed)
    else if !g.issueOk then Some(Refused)
    else if RequiresPhoto(f.amountKrw, p) && f.photos == 0 then Some(Refused)
    else if g.count.Some? && g.count.value > MACHINE_CLAIMS_PER_HOUR then Some(Limited)
    else None
  }

  /** Each answer at the gate by plain conditions; without one the submission goes on. */
  lemma GateExactly(f: Form, g: Gate, p: Policy)
    ensures var r := GateReply(f, g, p);
            var amount := 0 < f.amountKrw && f.amountKrw <= p.maxAmountKrw;
            var photo := f.amountKrw < p.reviewThresholdKrw || f.photos > 0;
            var checked := amount && photo && g.machine == MachineFound && g.issueOk;
            && (r == Some(NoMachine) <==> amount && g.machine == MachineUnknown)
            && (r == Some(Failed) <==> amount && g.machine == MachineFailed)
            && (r == Some(Limited) <==> checked && exists n :: g.count == Some(n) && n > 20)
            && (r == None <==> checked && (g.count == None || g.count.value <= 20))
            && (r == Some(Refused) <==> !amount || (g.machine == MachineFound && !checked))
  {
    assert g.count.Some? ==> g.count == Some(g.count.value);
  }

  // ----- the risk read on the claims stored so far -----

  predicate SamePlace(c: ClaimRec, f: Form) {
    c.phone == f.phone && c.machine == f.machine
  }

  ghost function LatestOf(times: set<int>): (last: Option<int>)
    ensures last.None? <==> forall t :: t !in times
    ensures last.Some? ==> last.value in times && forall t :: t in times ==> t <= last.value
  {
    if forall t :: t !in times then None
    else
      var t :| t in times;
      var rest := LatestOf(times - {t});
      assert forall u :: u in times ==> u == t || u in times - {t};
      if rest.Some? && rest.value > t then rest else Some(t)
  }

  ghost function LastAt(claims: set<ClaimRec>, f: Form): Option<int> {
    LatestOf(set c | c in claims && SamePlace(c, f) :: c.createdAt)
  }

  ghost function FactsAt(claims: set<ClaimRec>, f: Form, other: Facts, now: int): Facts {
    var recent := set c | c in claims && c.phone == f.phone && c.createdAt >= now - WINDOW_30D;
    other.(amountKrw := f.amountKrw, phoneClaims30d := |recent| + 1, lastSameMachineAt := LastAt(claims, f), now := now)
  }

  ghost function RiskAt(claims: set<ClaimRec>, f: Form, other: Facts, now: int, p: Policy): RiskResult {
    Evaluate(FactsAt(claims, f, other, now), p)
  }

  // The status by plain conditions: the mark, the phone's stored claims of the last 30 days with
  // this one, the account, what was paid out, and the amount.
  ghost function StatusFor(claims: set<ClaimRec>, f: Form, other: Facts, now: int, p: Policy): Status {
    var day := 24 * 3_600_000_000_000;
    var count := |set c | c in claims && c.phone == f.phone && c.createdAt >= now - 30 * day| + 1;
    if other.manualStatus == "blocked" || count >= p.repeatHoldCount then OnHold
    else if other.manualStatus == "watch" || count >= p.repeatWatchCount
            || (other.hasAccount && other.accountDistinctPhones >= p.accountSharingPhones)
            || other.phonePaidTotal30d > p.payoutCeilingKrw || f.amountKrw >= p.reviewThresholdKrw
    then NeedsReview
    else Pending
  }

  /** The risk read gives the status those conditions say, and no other. */
  lemma StatusIsPlain(claims: set<ClaimRec>, f: Form, other: Facts, now: int, p: Policy)
    ensures RiskAt(claims, f, other, now, p).status == StatusFor(claims, f, other, now, p)
  {
    StatusExact(FactsAt(claims, f, other, now), p);
    var day := 24 * 3_600_000_000_000;
    assert (set c | c in claims && c.phone == f.phone && c.createdAt >= now - WINDOW_30D)
           == set c | c in claims && c.phone == f.phone && c.createdAt >= now - 30 * day;
  }

  // A stored claim of the same phone and machine is younger than the duplicate window.
  ghost predicate YoungClaim(claims: set<ClaimRec>, f: Form, now: int, p: Policy) {
    exists c :: c in claims && c.phone == f.phone && c.machine == f.machine && now - c.createdAt < p.rapidDuplicateWindow
  }

  lemma DuplicateIffYoung(claims: set<ClaimRec>, f: Form, other: Facts, now: int, p: Policy)
    ensures RiskAt(claims, f, other, now, p).rejectDuplicate <==> YoungClaim(claims, f, now, p)
  {
    var times := set c | c in claims && SamePlace(c, f) :: c.createdAt;
    if YoungClaim(claims, f, now, p) {
      var c :| c in claims && SamePlace(c, f) && now - c.createdAt < p.rapidDuplicateWindow;
      assert c.createdAt in times;
    }
    if LatestOf(times).Some? {
      var last := LatestOf(times).value;
      var c :| c in claims && SamePlace(c, f) && c.createdAt == last;
    }
  }

  function Settle(reply: Reply, left: seq<Key>): Stage {
    if left == [] then Replied(reply) else Cleaning(reply, left)
  }

  function At(s: System, h: nat, stage: Stage): System
    requires h in s.handlers
  {
    s.(handlers := s.handlers[h := s.handlers[h].(stage := stage)])
  }

  predicate NoRepeats(keys: seq<Key>) {
    forall i, j :: 0 <= i < j < |keys| ==> keys[i] != keys[j]
  }

  // The expired rows, oldest first, at most one batch of them.
  ghost predicate IsBatch(rows: map<Key, PhotoRow>, now: int, batch: seq<Key>) {
    && |batch| <= PURGE_BATCH && NoRepeats(batch)
    && (forall k :: k in batch ==> k in rows && rows[k].expiresAt <= now)
    && (forall i, j :: 0 <= i < j < |batch| ==> rows[batch[i]].expiresAt <= rows[batch[j]].expiresAt)
    && (forall k, b :: k in rows && rows[k].expiresAt <= now && k !in batch && b in batch ==>
          rows[b].expiresAt <= rows[k].expiresAt)
    && ((exists k :: k in rows && rows[k].expiresAt <= now && k !in batch) ==> |batch| == PURGE_BATCH)
  }

  ghost predicate Enabled(s: System, step: Step) {
    match step
    case Submit(h, _, _) => h !in s.handlers
    case LookupKey(h, _) => h in s.handlers && s.handlers[h].stage.Started?
    case AssessRisk(h, _, _, _) => h in s.handlers && s.handlers[h].stage.Checked?
    case PutPhoto(h, key, _) =>
      h in s.handlers && s.handlers[h].stage.Writing? && |s.handlers[h].stage.written| < s.handlers[h].form.photos
      && key !in s.owner
    case InsertClaim(h, id, _, _, _) =>
      h in s.handlers && s.handlers[h].stage.Writing? && |s.handlers[h].stage.written| == s.handlers[h].form.photos
      && (forall c :: c in s.claims ==> c.id != id)
    case ReadWinner(h, _, _) => h in s.handlers && s.handlers[h].stage.Conflicted?
    case CleanOne(h, _) => h in s.handlers && s.handlers[h].stage.Cleaning? && s.handlers[h].stage.left != []
    case StartPurge(now, batch) => s.purge == Idle && s.clock <= now && IsBatch(s.rows, now, batch)
    case PurgeFile(_) => s.purge.Purging? && s.purge.left != [] && !s.purge.fileDone
    case PurgeRow(_) => s.purge.Purging? && s.purge.left != [] && s.purge.fileDone
  }

  function Delete(s: System, key: Key, ok: bool): System {
    if ok then s.(media := s.media - {key}, orphans := s.orphans - {key})
    else if key in s.media then s.(orphans := s.orphans + {key})
    else s
  }

  function NewRows(id: nat, keys: seq<Key>, expiresAt: int): map<Key, PhotoRow> {
    map k | k in keys :: PhotoRow(id, expiresAt)
  }

  // The record and the rows of a new claim.
  function NewClaim(f: Form, status: Status, keys: seq<Key>, id: nat, expiresAt: int, createdAt: int): ClaimRec {
    ClaimRec(id, f.storeId, f.idemKey, f.machine, f.phone, f.amountKrw, status, keys, expiresAt, createdAt)
  }

  ghost function Insert(s: System, cfg: Config, h: nat, id: nat, now: int, createdAt: int): System
    requires h in s.handlers && s.handlers[h].stage.Writing?
  {
    var Handler(f, Writing(status, written, attempt)) := s.handlers[h];
    if Taken(s.claims, f) then At(s, h, Conflicted(status, written, attempt))
    else
      var rec := NewClaim(f, status, written, id, now + cfg.retention, createdAt);
      At(s.(claims := s.claims + {rec}, rows := s.rows + NewRows(id, written, now + cfg.retention),
            created := s.created + [id]), h, Replied(Created(id)))
  }

  ghost function Next(s: System, cfg: Config, step: Step): System {
    if !Enabled(s, step) then s
    else
      match step
      case Submit(h, f, gate) =>
        var turned := GateReply(f, gate, cfg.policy);
        s.(handlers := s.handlers[h := Handler(f, if turned.Some? then Replied(turned.value) else Started)])
      case LookupKey(h, dbOk) =>
        var f := s.handlers[h].form;
        At(s, h, if !dbOk then Replied(Failed)
                 else if Taken(s.claims, f) then Replied(Existing(Holder(s.claims, f).id))
                 else Checked)
      case AssessRisk(h, facts, now, dbOk) =>
        var res := RiskAt(s.claims, s.handlers[h].form, facts, now, cfg.policy);
        At(s, h, if !dbOk then Replied(Failed)
                 else if res.rejectDuplicate then Replied(Duplicate)
                 else Writing(res.status, [], 0))
      case PutPhoto(h, key, ok) =>
        var Writing(status, written, attempt) := s.handlers[h].stage;
        if ok then
          At(s.(media := s.media + {key}, owner := s.owner[key := h]), h, Writing(status, written + [key], attempt))
        else At(s.(owner := s.owner[key := h]), h, Settle(Failed, written))
      case InsertClaim(h, id, now, createdAt, dbOk) =>
        if dbOk then Insert(s, cfg, h, id, now, createdAt) else At(s, h, Settle(Failed, s.handlers[h].stage.written))
      case ReadWinner(h, visible, dbOk) =>
        var Handler(f, st) := s.handlers[h];
        At(s, h, if !dbOk then Settle(Failed, st.written)
                 else if visible && Taken(s.claims, f) then Settle(Existing(Holder(s.claims, f).id), st.written)
                 else if st.attempt == 0 then Writing(st.status, st.written, 1)
                 else Settle(Failed, st.written))
      case CleanOne(h, ok) =>
        var st := s.handlers[h].stage;
        At(Delete(s, st.left[0], ok), h, Settle(st.reply, st.left[1..]))
      case StartPurge(now, batch) => s.(clock := now, purge := if batch == [] then Idle else Purging(batch, false))
      case PurgeFile(ok) =>
        var key := s.purge.left[0];
        var s' := Delete(s, key, ok).(purge := Purging(s.purge.left, true));
        if ok && key in s.rows then s'.(missing := s.missing + {key}) else s'
      case PurgeRow(ok) =>
        var key := s.purge.left[0];
        if ok then
          s.(rows := s.rows - {key}, missing := s.missing - {key},
             purge := if |s.purge.left| == 1 then Idle else Purging(s.purge.left[1..], false))
        else s.(purge := Idle)
  }

  ghost function Run(cfg: Config, steps: seq<Step>): System {
    if steps == [] then INIT else Next(Run(cfg, steps[..|steps| - 1]), cfg, steps[|steps| - 1])
  }

  // ----- where each object key is -----

  // The files a submission has written and still answers for.
  function Held(h: Handler): seq<Key> {
    match h.stage
    case Writing(_, written, _) => written
    case Conflicted(_, written, _) => written
    case Cleaning(_, left) => left
    case _ => []
  }

  ghost predicate HeldBy(s: System, h: nat, k: Key) {
    h in s.handlers && k in Held(s.handlers[h])
  }

  ghost predicate KeyInv(s: System, k: Key) {
    && (forall h :: HeldBy(s, h, k) ==> k in s.owner && s.owner[k] == h)
    && (k !in s.owner ==> k !in s.media && k !in s.rows && k !in s.orphans && k !in s.missing)
    && (k in s.owner ==>
          && (k in s.media <==> (k in s.rows && k !in s.missing) || HeldBy(s, s.owner[k], k) || k in s.orphans)
          && (k in s.missing ==> k in s.rows && k !in s.media && s.rows[k].expiresAt <= s.clock)
          && (HeldBy(s, s.owner[k], k) ==> k !in s.rows && k !in s.orphans))
  }

  ghost predicate HandlerInv(s: System, cfg: Config, h: nat) {
    h in s.handlers ==>
      var f, st := s.handlers[h].form, s.handlers[h].stage;
      && NoRepeats(Held(s.handlers[h]))
      && (st.Writing? || st.Conflicted? ==>
            st.status in {Pending, NeedsReview, OnHold} && |st.written| <= f.photos
            && (RequiresPhoto(f.amountKrw, cfg.policy) ==> st.status != Pending))
      && (st.Conflicted? ==> |st.written| == f.photos)
      && (!st.Replied? && RequiresPhoto(f.amountKrw, cfg.policy) ==> f.photos > 0)
      && (st.Cleaning? ==> st.left != [] && (st.reply == Failed || st.reply.Existing?))
      && (st.Replied? || st.Cleaning? ==>
            (st.reply.Created? || st.reply.Existing?) ==>
              exists c :: c in s.claims && SameKey(c, f) && c.id == st.reply.id)
  }

  ghost predicate ClaimInv(s: System, cfg: Config, c: ClaimRec) {
    && c.status in {Pending, NeedsReview, OnHold}
    && (RequiresPhoto(c.amountKrw, cfg.policy) ==> c.status != Pending && c.keys != [])
    && (s.clock < c.expiresAt ==> forall k :: k in c.keys ==> k in s.rows && s.rows[k] == PhotoRow(c.id, c.expiresAt))
  }

  ghost predicate UniqueClaims(claims: set<ClaimRec>) {
    && (forall c, d :: c in claims && d in claims && c.storeId == d.storeId && c.idemKey == d.idemKey ==> c == d)
    && (forall c, d :: c in claims && d in claims && c.id == d.id ==> c == d)
  }

  // One create event per claim.
  ghost predicate EventInv(s: System) {
    && (forall i, j :: 0 <= i < j < |s.created| ==> s.created[i] != s.created[j])
    && (forall id :: id in s.created <==> exists c :: c in s.claims && c.id == id)
  }

  ghost predicate PurgeInv(s: System) {
    s.purge.Purging? ==>
      && s.purge.left != [] && NoRepeats(s.purge.left)
      && (forall k :: k in s.purge.left ==> k in s.rows && s.rows[k].expiresAt <= s.clock)
      && (s.purge.fileDone ==> s.purge.left[0] in s.missing || s.purge.left[0] in s.orphans)
  }

  ghost predicate Inv(s: System, cfg: Config) {
    && (forall k :: KeyInv(s, k))
    && (forall h :: HandlerInv(s, cfg, h))
    && (forall c :: c in s.claims ==> ClaimInv(s, cfg, c))
    && UniqueClaims(s.claims) && EventInv(s)
    && PurgeInv(s)
  }

  // ----- preservation, one part of the invariant at a time -----

  // The only step that adds a claim.
  ghost predicate Creates(s: System, step: Step) {
    step.InsertClaim? && Enabled(s, step) && step.dbOk && !Taken(s.claims, s.handlers[step.h].form)
  }

  lemma ClaimsUnchanged(s: System, cfg: Config, step: Step)
    requires !Creates(s, step)
    ensures Next(s, cfg, step).claims == s.claims && Next(s, cfg, step).created == s.created
  {
  }

  lemma ClaimsStayUnique(s: System, cfg: Config, step: Step)
    requires UniqueClaims(s.claims)
    ensures UniqueClaims(Next(s, cfg, step).claims)
    ensures s.claims <= Next(s, cfg, step).claims
  {
    if Creates(s, step) {
      var f, st := s.handlers[step.h].form, s.handlers[step.h].stage;
      UniqueWith(s.claims, NewClaim(f, st.status, st.written, step.id, step.now + cfg.retention, step.createdAt), f);
    } else {
      ClaimsUnchanged(s, cfg, step);
    }
  }

  lemma UniqueWith(claims: set<ClaimRec>, rec: ClaimRec, f: Form)
    requires UniqueClaims(claims) && !Taken(claims, f) && SameKey(rec, f) && forall c :: c in claims ==> c.id != rec.id
    ensures UniqueClaims(claims + {rec})
  {
    forall c | c in claims
      ensures !(c.storeId == rec.storeId && c.idemKey == rec.idemKey)
    {
      assert !SameKey(c, f);
    }
  }

  lemma EventsKept(s: System, cfg: Config, step: Step)
    requires Inv(s, cfg)
    ensures EventInv(Next(s, cfg, step))
  {
    if !Creates(s, step) {
      ClaimsUnchanged(s, cfg, step);
    } else {
      EventAdded(s, cfg, step.h, step.id, step.now, step.createdAt);
    }
  }

  lemma EventAdded(s: System, cfg: Config, h: nat, id: nat, now: int, createdAt: int)
    requires EventInv(s) && h in s.handlers && s.handlers[h].stage.Writing? && !Taken(s.claims, s.handlers[h].form)
    requires forall c :: c in s.claims ==> c.id != id
    ensures EventInv(Insert(s, cfg, h, id, now, createdAt))
  {
    var s' := Insert(s, cfg, h, id, now, createdAt);
    var f, st := s.handlers[h].form, s.handlers[h].stage;
    var rec := NewClaim(f, st.status, st.written, id, now + cfg.retention, createdAt);
    assert rec in s'.claims && id !in s.created;
    forall i
      ensures i in s'.created <==> exists c :: c in s'.claims && c.id == i
    {
      if i in s.created {
        var c :| c in s.claims && c.id == i;
        assert c in s'.claims;
      }
    }
  }

  lemma SubmitKept(s: System, cfg: Config, h: nat, f: Form, gate: Gate)
    requires Enabled(s, Submit(h, f, gate))
    ensures HandlerInv(Next(s, cfg, Submit(h, f, gate)), cfg, h)
  {
  }

  lemma LookupKept(s: System, cfg: Config, h: nat, dbOk: bool)
    requires Enabled(s, LookupKey(h, dbOk)) && HandlerInv(s, cfg, h)
    ensures HandlerInv(Next(s, cfg, LookupKey(h, dbOk)), cfg, h)
  {
  }

  lemma ReadKept(s: System, cfg: Config, h: nat, visible: bool, dbOk: bool)
    requires Enabled(s, ReadWinner(h, visible, dbOk)) && HandlerInv(s, cfg, h)
    ensures HandlerInv(Next(s, cfg, ReadWinner(h, visible, dbOk)), cfg, h)
  {
  }

  lemma RiskKept(s: System, cfg: Config, h: nat, facts: Facts, now: int, dbOk: bool)
    requires Enabled(s, AssessRisk(h, facts, now, dbOk)) && HandlerInv(s, cfg, h)
    ensures HandlerInv(Next(s, cfg, AssessRisk(h, facts, now, dbOk)), cfg, h)
  {
    var f := FactsAt(s.claims, s.handlers[h].form, facts, now);
    PendingIffNothingFired(f, cfg.policy);
    ThresholdsBind(f, cfg.policy);
  }

  lemma PutKept(s: System, cfg: Config, h: nat, key: Key, ok: bool)
    requires Inv(s, cfg) && Enabled(s, PutPhoto(h, key, ok))
    ensures HandlerInv(Next(s, cfg, PutPhoto(h, key, ok)), cfg, h)
  {
    assert HandlerInv(s, cfg, h);
    var written := s.handlers[h].stage.written;
    forall i | 0 <= i < |written|
      ensures written[i] != key
    {
      assert HeldBy(s, h, written[i]) && KeyInv(s, written[i]);
    }
    assert NoRepeats(written + [key]);
  }

  lemma InsertKept(s: System, cfg: Config, h: nat, id: nat, now: int, createdAt: int, dbOk: bool)
    requires Enabled(s, InsertClaim(h, id, now, createdAt, dbOk)) && HandlerInv(s, cfg, h)
    ensures HandlerInv(Next(s, cfg, InsertClaim(h, id, now, createdAt, dbOk)), cfg, h)
  {
    var f, st := s.handlers[h].form, s.handlers[h].stage;
    if dbOk && !Taken(s.claims, f) {
      var rec := NewClaim(f, st.status, st.written, id, now + cfg.retention, createdAt);
      assert rec in Next(s, cfg, InsertClaim(h, id, now, createdAt, dbOk)).claims && SameKey(rec, f);
    }
  }

  lemma CleanKept(s: System, cfg: Config, h: nat, ok: bool)
    requires Enabled(s, CleanOne(h, ok)) && HandlerInv(s, cfg, h)
    ensures HandlerInv(Next(s, cfg, CleanOne(h, ok)), cfg, h)
  {
    var left := s.handlers[h].stage.left;
    assert NoRepeats(left[1..]);
  }

  // A submission is untouched by every step but its own.
  predicate OwnStep(step: Step, h: nat) {
    match step
    case StartPurge(_, _) => false
    case PurgeFile(_) => false
    case PurgeRow(_) => false
    case _ => step.h == h
  }

  lemma OthersUntouched(s: System, cfg: Config, step: Step, h: nat)
    requires !OwnStep(step, h) || !Enabled(s, step)
    ensures h in Next(s, cfg, step).handlers <==> h in s.handlers
    ensures h in s.handlers ==> Next(s, cfg, step).handlers[h] == s.handlers[h]
  {
  }

  lemma OtherKept(s: System, s': System, cfg: Config, h: nat)
    requires HandlerInv(s, cfg, h) && s.claims <= s'.claims
    requires h in s'.handlers ==> h in s.handlers && s'.handlers[h] == s.handlers[h]
    ensures HandlerInv(s', cfg, h)
  {
  }

  lemma OwnKept(s: System, cfg: Config, step: Step, h: nat)
    requires Inv(s, cfg) && Enabled(s, step) && OwnStep(step, h)
    ensures HandlerInv(Next(s, cfg, step), cfg, h)
  {
    assert HandlerInv(s, cfg, h);
    match step
    case Submit(_, f, gate) => SubmitKept(s, cfg, h, f, gate);
    case LookupKey(_, dbOk) => LookupKept(s, cfg, h, dbOk);
    case AssessRisk(_, facts, now, dbOk) => RiskKept(s, cfg, h, facts, now, dbOk);
    case PutPhoto(_, key, ok) => PutKept(s, cfg, h, key, ok);
    case InsertClaim(_, id, now, createdAt, dbOk) => InsertKept(s, cfg, h, id, now, createdAt, dbOk);
    case ReadWinner(_, visible, dbOk) => ReadKept(s, cfg, h, visible, dbOk);
    case CleanOne(_, ok) => CleanKept(s, cfg, h, ok);
  }

  lemma HandlersKept(s: System, cfg: Config, step: Step, h: nat)
    requires Inv(s, cfg)
    ensures HandlerInv(Next(s, cfg, step), cfg, h)
  {
    if Enabled(s, step) && OwnStep(step, h) {
      OwnKept(s, cfg, step, h);
    } else {
      assert HandlerInv(s, cfg, h);
      ClaimsStayUnique(s, cfg, step);
      OthersUntouched(s, cfg, step, h);
      OtherKept(s, Next(s, cfg, step), cfg, h);
    }
  }

  // Steps that move no file, row or held key.
  lemma KeysUntouched(s: System, cfg: Config, step: Step, k: Key)
    requires Inv(s, cfg)
    requires step.Submit? || step.LookupKey? || step.AssessRisk? || step.ReadWinner?
    ensures KeyInv(Next(s, cfg, step), k)
  {
    assert KeyInv(s, k);
    assert forall h :: HeldBy(Next(s, cfg, step), h, k) <==> HeldBy(s, h, k);
  }

  lemma PutKeys(s: System, cfg: Config, h: nat, key: Key, ok: bool, k: Key)
    requires Inv(s, cfg) && Enabled(s, PutPhoto(h, key, ok))
    ensures KeyInv(Next(s, cfg, PutPhoto(h, key, ok)), k)
  {
    assert KeyInv(s, k);
    var s' := Next(s, cfg, PutPhoto(h, key, ok));
    assert forall g :: HeldBy(s', g, k) <==> HeldBy(s, g, k) || (ok && g == h && k == key);
  }

  lemma InsertKeys(s: System, cfg: Config, h: nat, id: nat, now: int, createdAt: int, dbOk: bool, k: Key)
    requires Inv(s, cfg) && Enabled(s, InsertClaim(h, id, now, createdAt, dbOk))
    ensures KeyInv(Next(s, cfg, InsertClaim(h, id, now, createdAt, dbOk)), k)
  {
    assert KeyInv(s, k);
    var s' := Next(s, cfg, InsertClaim(h, id, now, createdAt, dbOk));
    if dbOk && !Taken(s.claims, s.handlers[h].form) {
      assert HeldBy(s, h, k) <==> k in s.handlers[h].stage.written;
      assert forall g :: HeldBy(s', g, k) <==> HeldBy(s, g, k) && g != h;
    } else {
      assert forall g :: HeldBy(s', g, k) <==> HeldBy(s, g, k);
    }
  }

  lemma CleanKeys(s: System, cfg: Config, h: nat, ok: bool, k: Key)
    requires Inv(s, cfg) && Enabled(s, CleanOne(h, ok))
    ensures KeyInv(Next(s, cfg, CleanOne(h, ok)), k)
  {
    assert KeyInv(s, k) && HandlerInv(s, cfg, h);
    var s' := Next(s, cfg, CleanOne(h, ok));
    var left := s.handlers[h].stage.left;
    assert HeldBy(s, h, left[0]) && KeyInv(s, left[0]);
    assert left == [left[0]] + left[1..];
    assert left[0] !in left[1..];
    assert forall g :: HeldBy(s', g, k) <==> HeldBy(s, g, k) && !(g == h && k == left[0]);
  }

  lemma PurgeKeys(s: System, cfg: Config, step: Step, k: Key)
    requires Inv(s, cfg) && Enabled(s, step) && (step.StartPurge? || step.PurgeFile? || step.PurgeRow?)
    ensures KeyInv(Next(s, cfg, step), k)
  {
    assert KeyInv(s, k);
    assert forall g :: HeldBy(Next(s, cfg, step), g, k) <==> HeldBy(s, g, k);
    if !step.StartPurge? {
      assert s.purge.left[0] in s.purge.left;
      assert KeyInv(s, s.purge.left[0]);
    }
  }

  lemma KeysKept(s: System, cfg: Config, step: Step, k: Key)
    requires Inv(s, cfg)
    ensures KeyInv(Next(s, cfg, step), k)
  {
    assert KeyInv(s, k);
    if Enabled(s, step) {
      match step
      case PutPhoto(h, key, ok) => PutKeys(s, cfg, h, key, ok, k);
      case InsertClaim(h, id, now, createdAt, dbOk) => InsertKeys(s, cfg, h, id, now, createdAt, dbOk, k);
      case CleanOne(h, ok) => CleanKeys(s, cfg, h, ok, k);
      case StartPurge(_, _) => PurgeKeys(s, cfg, step, k);
      case PurgeFile(_) => PurgeKeys(s, cfg, step, k);
      case PurgeRow(_) => PurgeKeys(s, cfg, step, k);
      case _ => KeysUntouched(s, cfg, step, k);
    }
  }

  // What a submission holds has no row yet.
  lemma HeldHasNoRow(s: System, cfg: Config, h: nat, k: Key)
    requires Inv(s, cfg) && HeldBy(s, h, k)
    ensures k !in s.rows
  {
    assert KeyInv(s, k);
  }

  lemma NewClaimKept(s: System, cfg: Config, h: nat, id: nat, now: int, createdAt: int, c: ClaimRec)
    requires Inv(s, cfg) && Enabled(s, InsertClaim(h, id, now, createdAt, true)) && !Taken(s.claims, s.handlers[h].form)
    requires c in Next(s, cfg, InsertClaim(h, id, now, createdAt, true)).claims
    ensures ClaimInv(Next(s, cfg, InsertClaim(h, id, now, createdAt, true)), cfg, c)
  {
    assert HandlerInv(s, cfg, h);
    var written := s.handlers[h].stage.written;
    forall k | k in written
      ensures k !in s.rows
    {
      assert HeldBy(s, h, k);
      HeldHasNoRow(s, cfg, h, k);
    }
    if c in s.claims {
      assert ClaimInv(s, cfg, c);
    }
  }

  lemma RowsUntouched(s: System, cfg: Config, step: Step)
    requires !Creates(s, step) && !step.PurgeRow?
    ensures Next(s, cfg, step).rows == s.rows && Next(s, cfg, step).clock >= s.clock
  {
  }

  lemma ClaimAfterRow(s: System, cfg: Config, ok: bool, c: ClaimRec)
    requires PurgeInv(s) && Enabled(s, PurgeRow(ok)) && ClaimInv(s, cfg, c)
    ensures ClaimInv(Next(s, cfg, PurgeRow(ok)), cfg, c)
  {
    assert s.purge.left[0] in s.purge.left;
  }

  lemma ClaimsKept(s: System, cfg: Config, step: Step, c: ClaimRec)
    requires Inv(s, cfg) && c in Next(s, cfg, step).claims
    ensures ClaimInv(Next(s, cfg, step), cfg, c)
  {
    if Creates(s, step) {
      NewClaimKept(s, cfg, step.h, step.id, step.now, step.createdAt, c);
    } else {
      ClaimsUnchanged(s, cfg, step);
      assert ClaimInv(s, cfg, c);
      if step.PurgeRow? && Enabled(s, step) {
        ClaimAfterRow(s, cfg, step.ok, c);
      } else if !step.PurgeRow? {
        RowsUntouched(s, cfg, step);
      }
    }
  }

  lemma PurgeAfterInsert(s: System, cfg: Config, step: Step)
    requires Inv(s, cfg) && Creates(s, step)
    ensures PurgeInv(Next(s, cfg, step))
  {
    forall k | k in s.handlers[step.h].stage.written
      ensures k !in s.rows
    {
      assert HeldBy(s, step.h, k);
      HeldHasNoRow(s, cfg, step.h, k);
    }
  }

  lemma PurgeAfterClean(s: System, cfg: Config, h: nat, ok: bool)
    requires Inv(s, cfg) && Enabled(s, CleanOne(h, ok))
    ensures PurgeInv(Next(s, cfg, CleanOne(h, ok)))
  {
    assert HeldBy(s, h, s.handlers[h].stage.left[0]);
    HeldHasNoRow(s, cfg, h, s.handlers[h].stage.left[0]);
  }

  lemma PurgeAfterFile(s: System, cfg: Config, ok: bool)
    requires Inv(s, cfg) && Enabled(s, PurgeFile(ok))
    ensures PurgeInv(Next(s, cfg, PurgeFile(ok)))
  {
    assert s.purge.left[0] in s.purge.left && KeyInv(s, s.purge.left[0]);
  }

  lemma PurgeAfterRow(s: System, cfg: Config, ok: bool)
    requires Inv(s, cfg) && Enabled(s, PurgeRow(ok))
    ensures PurgeInv(Next(s, cfg, PurgeRow(ok)))
  {
    var left := s.purge.left;
    assert NoRepeats(left[1..]);
    assert left == [left[0]] + left[1..];
    assert left[0] !in left[1..];
  }

  lemma PurgeUntouched(s: System, cfg: Config, step: Step)
    requires PurgeInv(s) && !Creates(s, step)
    requires !step.CleanOne? && !step.PurgeFile? && !step.PurgeRow?
    ensures PurgeInv(Next(s, cfg, step))
  {
  }

  lemma PurgeKept(s: System, cfg: Config, step: Step)
    requires Inv(s, cfg)
    ensures PurgeInv(Next(s, cfg, step))
  {
    if Creates(s, step) {
      PurgeAfterInsert(s, cfg, step);
    } else if Enabled(s, step) {
      match step
      case CleanOne(h, ok) => PurgeAfterClean(s, cfg, h, ok);
      case PurgeFile(ok) => PurgeAfterFile(s, cfg, ok);
      case PurgeRow(ok) => PurgeAfterRow(s, cfg, ok);
      case _ => PurgeUntouched(s, cfg, step);
    }
  }

  lemma NextKeepsInv(s: System, cfg: Config, step: Step)
    requires Inv(s, cfg)
    ensures Inv(Next(s, cfg, step), cfg)
  {
    forall k { KeysKept(s, cfg, step, k); }
    forall h { HandlersKept(s, cfg, step, h); }
    forall c | c in Next(s, cfg, step).claims { ClaimsKept(s, cfg, step, c); }
    ClaimsStayUnique(s, cfg, step);
    EventsKept(s, cfg, step);
    PurgeKept(s, cfg, step);
  }

  lemma {:induction false} RunKeepsInv(cfg: Config, steps: seq<Step>)
    ensures Inv(Run(cfg, steps), cfg)
  {
    if steps != [] {
      RunKeepsInv(cfg, steps[..|steps| - 1]);
      NextKeepsInv(Run(cfg, steps[..|steps| - 1]), cfg, steps[|steps| - 1]);
    }
  }
}
