/** What each answer to a submission means, over every schedule: when it is "duplicate", when a
    retry gets the stored receipt, what a submission without trouble ends in, and what a
    submission that was not stored leaves behind. */
module IntakeOutcomes {
  import opened Common
  import opened ClaimDomain
  import opened Risk
  import opened Sequences
  import opened Intake
  import IntakeTheorems

  ghost function Before(cfg: Config, steps: seq<Step>, i: nat): System
    requires i <= |steps|
  {
    Run(cfg, steps[..i])
  }

  // The i-th step is one of submission h's and takes effect.
  ghost predicate Takes(cfg: Config, steps: seq<Step>, h: nat, i: nat) {
    i < |steps| && OwnStep(steps[i], h) && Enabled(Before(cfg, steps, i), steps[i])
  }

  lemma TakesInPrefix(cfg: Config, steps: seq<Step>, h: nat, i: nat)
    requires steps != [] && i < |steps| - 1
    ensures Takes(cfg, steps[..|steps| - 1], h, i) <==> Takes(cfg, steps, h, i)
    ensures Before(cfg, steps[..|steps| - 1], i) == Before(cfg, steps, i)
  {
    assert steps[..|steps| - 1][..i] == steps[..i];
  }

  lemma RunLast(cfg: Config, steps: seq<Step>)
    requires steps != []
    ensures Run(cfg, steps) == Next(Run(cfg, steps[..|steps| - 1]), cfg, steps[|steps| - 1])
    ensures Before(cfg, steps, |steps| - 1) == Run(cfg, steps[..|steps| - 1])
  {
  }

  // ----- an answer is final -----

  lemma AnswerStays(s: System, cfg: Config, step: Step, h: nat)
    requires h in s.handlers
    ensures h in Next(s, cfg, step).handlers && Next(s, cfg, step).handlers[h].form == s.handlers[h].form
    ensures s.handlers[h].stage.Replied? ==> Next(s, cfg, step).handlers[h] == s.handlers[h]
  {
    if !(OwnStep(step, h) && Enabled(s, step)) {
      OthersUntouched(s, cfg, step, h);
    }
  }

  lemma {:induction false} AnswerIsFinal(cfg: Config, steps: seq<Step>, h: nat, i: nat)
    requires i <= |steps| && h in Before(cfg, steps, i).handlers
    ensures h in Run(cfg, steps).handlers && Run(cfg, steps).handlers[h].form == Before(cfg, steps, i).handlers[h].form
    ensures Before(cfg, steps, i).handlers[h].stage.Replied? ==>
              Run(cfg, steps).handlers[h] == Before(cfg, steps, i).handlers[h]
  {
    if i == |steps| {
      assert steps[..i] == steps;
    } else {
      var n := |steps| - 1;
      assert steps[..n][..i] == steps[..i];
      AnswerIsFinal(cfg, steps[..n], h, i);
      RunLast(cfg, steps);
      AnswerStays(Run(cfg, steps[..n]), cfg, steps[n], h);
    }
  }

  lemma AfterStep(cfg: Config, steps: seq<Step>, i: nat)
    requires i < |steps|
    ensures Before(cfg, steps, i + 1) == Next(Before(cfg, steps, i), cfg, steps[i])
  {
    SplitPrefix(steps, i + 1);
  }

  // ----- "duplicate" -----

  // The submission looked its key up, and no claim held it.
  ghost predicate FreeLookup(cfg: Config, steps: seq<Step>, h: nat, i: nat) {
    Takes(cfg, steps, h, i) && steps[i].LookupKey? && steps[i].dbOk
    && !Taken(Before(cfg, steps, i).claims, Before(cfg, steps, i).handlers[h].form)
  }

  // Its risk was read while a stored claim of the same phone and machine was still young.
  ghost predicate YoungRead(cfg: Config, steps: seq<Step>, h: nat, j: nat) {
    Takes(cfg, steps, h, j) && steps[j].AssessRisk? && steps[j].dbOk
    && YoungClaim(Before(cfg, steps, j).claims, Before(cfg, steps, j).handlers[h].form, steps[j].now, cfg.policy)
  }

  ghost predicate LookedUp(cfg: Config, steps: seq<Step>, h: nat, n: nat) {
    exists i: nat :: i < n && FreeLookup(cfg, steps, h, i)
  }

  lemma FreeLookupInPrefix(cfg: Config, steps: seq<Step>, h: nat, i: nat)
    requires steps != [] && i < |steps| - 1
    ensures FreeLookup(cfg, steps[..|steps| - 1], h, i) <==> FreeLookup(cfg, steps, h, i)
  {
    TakesInPrefix(cfg, steps, h, i);
  }

  lemma LookedUpInPrefix(cfg: Config, steps: seq<Step>, h: nat, n: nat)
    requires steps != [] && n <= |steps| - 1
    ensures LookedUp(cfg, steps[..|steps| - 1], h, n) <==> LookedUp(cfg, steps, h, n)
  {
    var init := steps[..|steps| - 1];
    if i: nat :| i < n && FreeLookup(cfg, steps, h, i) {
      FreeLookupInPrefix(cfg, steps, h, i);
    }
    if i: nat :| i < n && FreeLookup(cfg, init, h, i) {
      FreeLookupInPrefix(cfg, steps, h, i);
    }
  }

  // Only a free lookup makes a submission go on.
  lemma {:induction false} CheckedIsLookedUp(cfg: Config, steps: seq<Step>, h: nat)
    requires h in Run(cfg, steps).handlers && Run(cfg, steps).handlers[h].stage.Checked?
    ensures LookedUp(cfg, steps, h, |steps|)
  {
    if steps != [] {
      var n, step := |steps| - 1, steps[|steps| - 1];
      var s := Run(cfg, steps[..n]);
      RunLast(cfg, steps);
      if OwnStep(step, h) && Enabled(s, step) {
        assert FreeLookup(cfg, steps, h, n);
      } else {
        OthersUntouched(s, cfg, step, h);
        CheckedIsLookedUp(cfg, steps[..n], h);
        LookedUpInPrefix(cfg, steps, h, n);
      }
    }
  }

  ghost predicate Overtaken(cfg: Config, steps: seq<Step>, h: nat, j: nat) {
    YoungRead(cfg, steps, h, j) && LookedUp(cfg, steps, h, j)
  }

  lemma OvertakenInPrefix(cfg: Config, steps: seq<Step>, h: nat, j: nat)
    requires steps != [] && j < |steps| - 1 && Overtaken(cfg, steps[..|steps| - 1], h, j)
    ensures Overtaken(cfg, steps, h, j)
  {
    TakesInPrefix(cfg, steps, h, j);
    LookedUpInPrefix(cfg, steps, h, j);
  }

  lemma {:induction false} DuplicateHasCause(cfg: Config, steps: seq<Step>, h: nat)
    requires h in Run(cfg, steps).handlers && Run(cfg, steps).handlers[h].stage == Replied(Duplicate)
    ensures exists j: nat :: j < |steps| && Overtaken(cfg, steps, h, j)
  {
    if steps != [] {
      var n, step := |steps| - 1, steps[|steps| - 1];
      var s := Run(cfg, steps[..n]);
      RunLast(cfg, steps);
      if OwnStep(step, h) && Enabled(s, step) {
        RunKeepsInv(cfg, steps[..n]);
        LastStepDuplicate(s, cfg, step, h);
        CheckedIsLookedUp(cfg, steps[..n], h);
        LookedUpInPrefix(cfg, steps, h, n);
        assert Overtaken(cfg, steps, h, n);
      } else {
        OthersUntouched(s, cfg, step, h);
        DuplicateHasCause(cfg, steps[..n], h);
        var j: nat :| j < n && Overtaken(cfg, steps[..n], h, j);
        OvertakenInPrefix(cfg, steps, h, j);
      }
    }
  }

  lemma LastStepDuplicate(s: System, cfg: Config, step: Step, h: nat)
    requires OwnStep(step, h) && Enabled(s, step) && Inv(s, cfg)
    requires h in Next(s, cfg, step).handlers && Next(s, cfg, step).handlers[h].stage == Replied(Duplicate)
    ensures step.AssessRisk? && step.dbOk && s.handlers[h].stage.Checked?
    ensures YoungClaim(s.claims, s.handlers[h].form, step.now, cfg.policy)
  {
    assert HandlerInv(s, cfg, h);
    if step.AssessRisk? {
      DuplicateIffYoung(s.claims, s.handlers[h].form, step.facts, step.now, cfg.policy);
    }
  }

  lemma YoungReadIsDuplicate(cfg: Config, steps: seq<Step>, h: nat, j: nat)
    requires YoungRead(cfg, steps, h, j)
    ensures h in Run(cfg, steps).handlers && Run(cfg, steps).handlers[h].stage == Replied(Duplicate)
  {
    var s := Before(cfg, steps, j);
    DuplicateIffYoung(s.claims, s.handlers[h].form, steps[j].facts, steps[j].now, cfg.policy);
    AfterStep(cfg, steps, j);
    AnswerIsFinal(cfg, steps, h, j + 1);
  }

  /** A submission is answered "duplicate" exactly if no claim held its key at its lookup and, at
      its later risk read, some stored claim of the same phone and machine was younger than the
      window. */
  lemma DuplicateExactly(cfg: Config, steps: seq<Step>, h: nat)
    ensures h in Run(cfg, steps).handlers && Run(cfg, steps).handlers[h].stage == Replied(Duplicate)
            <==> exists j: nat :: j < |steps| && Overtaken(cfg, steps, h, j)
  {
    if h in Run(cfg, steps).handlers && Run(cfg, steps).handlers[h].stage == Replied(Duplicate) {
      DuplicateHasCause(cfg, steps, h);
    }
    if j: nat :| j < |steps| && Overtaken(cfg, steps, h, j) {
      YoungReadIsDuplicate(cfg, steps, h, j);
    }
  }

  // ----- a retry after the commit -----

  lemma {:induction false} ClaimsOnlyGrow(cfg: Config, steps: seq<Step>, i: nat)
    requires i <= |steps|
    ensures Before(cfg, steps, i).claims <= Run(cfg, steps).claims
  {
    if i == |steps| {
      assert steps[..i] == steps;
    } else {
      var n := |steps| - 1;
      assert steps[..n][..i] == steps[..i];
      ClaimsOnlyGrow(cfg, steps[..n], i);
      RunLast(cfg, steps);
      RunKeepsInv(cfg, steps[..n]);
      ClaimsStayUnique(Run(cfg, steps[..n]), cfg, steps[n]);
    }
  }

  /** A retry whose key was stored before its lookup is answered with the stored receipt, for good,
      whatever else happens; it is never a duplicate and never creates a second claim. */
  lemma RetryGetsReceipt(cfg: Config, steps: seq<Step>, h: nat, i: nat, c: ClaimRec)
    requires Takes(cfg, steps, h, i) && steps[i].LookupKey? && steps[i].dbOk
    requires exists e :: 0 <= e <= i && c in Before(cfg, steps, e).claims
    requires SameKey(c, Before(cfg, steps, i).handlers[h].form)
    ensures h in Run(cfg, steps).handlers && Run(cfg, steps).handlers[h].stage == Replied(Existing(c.id))
  {
    var e :| 0 <= e <= i && c in Before(cfg, steps, e).claims;
    assert steps[..i][..e] == steps[..e];
    ClaimsOnlyGrow(cfg, steps[..i], e);
    RunKeepsInv(cfg, steps[..i]);
    AfterStep(cfg, steps, i);
    AnswerIsFinal(cfg, steps, h, i + 1);
  }

  // ----- which keys a submission drew -----

  ghost predicate Drew(s: System, h: nat, k: Key) {
    k in s.owner && s.owner[k] == h
  }

  ghost predicate DrewExactly(s: System, h: nat, keys: seq<Key>) {
    forall k :: Drew(s, h, k) <==> k in keys
  }

  // What the claim of a submission remembers of it.
  predicate IsOf(c: ClaimRec, f: Form) {
    && c.storeId == f.storeId && c.idemKey == f.idemKey && c.machine == f.machine && c.phone == f.phone
    && c.amountKrw == f.amountKrw && |c.keys| == f.photos && NoRepeats(c.keys)
  }

  ghost predicate CreatedWell(s: System, h: nat, id: nat)
    requires h in s.handlers
  {
    exists c :: c in s.claims && c.id == id && IsOf(c, s.handlers[h].form) && DrewExactly(s, h, c.keys)
  }

  ghost predicate Draws(s: System, h: nat) {
    if h !in s.handlers then DrewExactly(s, h, [])
    else
      match s.handlers[h].stage
      case Started => DrewExactly(s, h, [])
      case Checked => DrewExactly(s, h, [])
      case Writing(_, written, _) => DrewExactly(s, h, written)
      case Conflicted(_, written, _) => DrewExactly(s, h, written)
      case Replied(reply) => reply.Created? ==> CreatedWell(s, h, reply.id)
      case Cleaning(reply, _) => !reply.Created?
  }

  // Another submission's step draws nothing for h.
  lemma DrawnByOthers(s: System, cfg: Config, step: Step, h: nat)
    requires !(OwnStep(step, h) && Enabled(s, step))
    ensures forall k :: Drew(Next(s, cfg, step), h, k) <==> Drew(s, h, k)
  {
  }

  lemma OtherDrawsKept(s: System, cfg: Config, step: Step, h: nat)
    requires Inv(s, cfg) && Draws(s, h) && !(OwnStep(step, h) && Enabled(s, step))
    ensures Draws(Next(s, cfg, step), h)
  {
    OthersUntouched(s, cfg, step, h);
    DrawnByOthers(s, cfg, step, h);
    ClaimsStayUnique(s, cfg, step);
    if h in s.handlers && s.handlers[h].stage.Replied? && s.handlers[h].stage.reply.Created? {
      var c :| c in s.claims && c.id == s.handlers[h].stage.reply.id && IsOf(c, s.handlers[h].form)
               && DrewExactly(s, h, c.keys);
      assert c in Next(s, cfg, step).claims && DrewExactly(Next(s, cfg, step), h, c.keys);
    }
  }

  lemma PutDraws(s: System, cfg: Config, h: nat, key: Key, ok: bool)
    requires Enabled(s, PutPhoto(h, key, ok)) && Draws(s, h)
    ensures Draws(Next(s, cfg, PutPhoto(h, key, ok)), h)
  {
    var s' := Next(s, cfg, PutPhoto(h, key, ok));
    assert forall k :: Drew(s', h, k) <==> Drew(s, h, k) || k == key;
  }

  lemma InsertDraws(s: System, cfg: Config, h: nat, id: nat, now: int, createdAt: int, dbOk: bool)
    requires Enabled(s, InsertClaim(h, id, now, createdAt, dbOk)) && Draws(s, h) && HandlerInv(s, cfg, h)
    ensures Draws(Next(s, cfg, InsertClaim(h, id, now, createdAt, dbOk)), h)
  {
    var s' := Next(s, cfg, InsertClaim(h, id, now, createdAt, dbOk));
    var Handler(f, st) := s.handlers[h];
    assert forall k :: Drew(s', h, k) <==> Drew(s, h, k);
    if dbOk && !Taken(s.claims, f) {
      var c := NewClaim(f, st.status, st.written, id, now + cfg.retention, createdAt);
      assert c in s'.claims && IsOf(c, f) && DrewExactly(s', h, c.keys);
    }
  }

  lemma StillDraws(s: System, cfg: Config, step: Step, h: nat)
    requires OwnStep(step, h) && Enabled(s, step) && Draws(s, h) && HandlerInv(s, cfg, h)
    requires !step.PutPhoto? && !step.InsertClaim?
    ensures Draws(Next(s, cfg, step), h)
  {
    assert forall k :: Drew(Next(s, cfg, step), h, k) <==> Drew(s, h, k);
    if step.Submit? {
      assert GateReply(step.form, step.gate, cfg.policy).Some? ==> !GateReply(step.form, step.gate, cfg.policy).value.Created?;
    }
  }

  lemma {:induction false} RunDraws(cfg: Config, steps: seq<Step>, h: nat)
    ensures Draws(Run(cfg, steps), h)
  {
    if steps != [] {
      var s, step := Run(cfg, steps[..|steps| - 1]), steps[|steps| - 1];
      RunDraws(cfg, steps[..|steps| - 1], h);
      RunKeepsInv(cfg, steps[..|steps| - 1]);
      assert HandlerInv(s, cfg, h);
      if OwnStep(step, h) && Enabled(s, step) {
        match step
        case PutPhoto(_, key, ok) => PutDraws(s, cfg, h, key, ok);
        case InsertClaim(_, id, now, createdAt, dbOk) => InsertDraws(s, cfg, h, id, now, createdAt, dbOk);
        case _ => StillDraws(s, cfg, step, h);
      } else {
        OtherDrawsKept(s, cfg, step, h);
      }
    }
  }

  // ----- a submission without trouble -----

  // The step goes well: no call fails, the gate is open, the key is free, no claim is too young.
  ghost predicate GoesWell(s: System, cfg: Config, step: Step, h: nat)
    requires OwnStep(step, h) && Enabled(s, step)
  {
    match step
    case Submit(_, f, gate) => GateReply(f, gate, cfg.policy).None?
    case LookupKey(_, dbOk) => dbOk && !Taken(s.claims, s.handlers[h].form)
    case AssessRisk(_, _, now, dbOk) => dbOk && !YoungClaim(s.claims, s.handlers[h].form, now, cfg.policy)
    case PutPhoto(_, _, ok) => ok
    case InsertClaim(_, _, _, _, dbOk) => dbOk && !Taken(s.claims, s.handlers[h].form)
    case _ => true
  }

  ghost predicate Smooth(cfg: Config, steps: seq<Step>, h: nat) {
    forall i: nat :: Takes(cfg, steps, h, i) ==> GoesWell(Before(cfg, steps, i), cfg, steps[i], h)
  }

  predicate OnTheWay(st: Stage) {
    st.Started? || st.Checked? || st.Writing? || (st.Replied? && st.reply.Created?)
  }

  lemma StepGoesOn(s: System, cfg: Config, step: Step, h: nat)
    requires OwnStep(step, h) && Enabled(s, step) && GoesWell(s, cfg, step, h)
    requires h in s.handlers ==> OnTheWay(s.handlers[h].stage)
    ensures h in Next(s, cfg, step).handlers && OnTheWay(Next(s, cfg, step).handlers[h].stage)
  {
    if step.AssessRisk? {
      DuplicateIffYoung(s.claims, s.handlers[h].form, step.facts, step.now, cfg.policy);
    }
  }

  lemma {:induction false} SmoothGoesOn(cfg: Config, steps: seq<Step>, h: nat)
    requires Smooth(cfg, steps, h) && h in Run(cfg, steps).handlers
    ensures OnTheWay(Run(cfg, steps).handlers[h].stage)
  {
    if steps != [] {
      var n, step := |steps| - 1, steps[|steps| - 1];
      var s := Run(cfg, steps[..n]);
      RunLast(cfg, steps);
      forall i: nat | Takes(cfg, steps[..n], h, i)
        ensures GoesWell(Before(cfg, steps[..n], i), cfg, steps[..n][i], h)
      {
        TakesInPrefix(cfg, steps, h, i);
      }
      if h in s.handlers {
        SmoothGoesOn(cfg, steps[..n], h);
      }
      if OwnStep(step, h) && Enabled(s, step) {
        assert Takes(cfg, steps, h, n);
        StepGoesOn(s, cfg, step, h);
      } else {
        OthersUntouched(s, cfg, step, h);
      }
    }
  }

  // ----- how a claim got its status and its dates -----

  // The submission's risk was read with no claim too young, and gave this status.
  ghost predicate Assessed(cfg: Config, steps: seq<Step>, h: nat, j: nat, f: Form, status: Status) {
    Takes(cfg, steps, h, j) && steps[j].AssessRisk? && steps[j].dbOk
    && Before(cfg, steps, j).handlers[h].form == f
    && !YoungClaim(Before(cfg, steps, j).claims, f, steps[j].now, cfg.policy)
    && status == StatusFor(Before(cfg, steps, j).claims, f, steps[j].facts, steps[j].now, cfg.policy)
  }

  // The submission's insert went through with a free key and stored the claim with these dates.
  ghost predicate InsertedAt(cfg: Config, steps: seq<Step>, h: nat, k: nat, f: Form, c: ClaimRec) {
    Takes(cfg, steps, h, k) && steps[k].InsertClaim? && steps[k].dbOk
    && Before(cfg, steps, k).handlers[h].form == f && !Taken(Before(cfg, steps, k).claims, f)
    && c.id == steps[k].id && c.expiresAt == steps[k].now + cfg.retention && c.createdAt == steps[k].createdAt
  }

  ghost predicate Born(cfg: Config, steps: seq<Step>, h: nat, f: Form, c: ClaimRec) {
    IsOf(c, f) && exists j: nat, k: nat :: j < k && Assessed(cfg, steps, h, j, f, c.status) && InsertedAt(cfg, steps, h, k, f, c)
  }

  lemma AssessedInPrefix(cfg: Config, steps: seq<Step>, h: nat, j: nat, f: Form, status: Status)
    requires steps != [] && j < |steps| - 1 && Assessed(cfg, steps[..|steps| - 1], h, j, f, status)
    ensures Assessed(cfg, steps, h, j, f, status)
  {
    TakesInPrefix(cfg, steps, h, j);
  }

  lemma InsertedInPrefix(cfg: Config, steps: seq<Step>, h: nat, k: nat, f: Form, c: ClaimRec)
    requires steps != [] && k < |steps| - 1 && InsertedAt(cfg, steps[..|steps| - 1], h, k, f, c)
    ensures InsertedAt(cfg, steps, h, k, f, c)
  {
    TakesInPrefix(cfg, steps, h, k);
  }

  lemma BornInPrefix(cfg: Config, steps: seq<Step>, h: nat, f: Form, c: ClaimRec)
    requires steps != [] && Born(cfg, steps[..|steps| - 1], h, f, c)
    ensures Born(cfg, steps, h, f, c)
  {
    var init := steps[..|steps| - 1];
    var j: nat, k: nat :| j < k && Assessed(cfg, init, h, j, f, c.status) && InsertedAt(cfg, init, h, k, f, c);
    AssessedInPrefix(cfg, steps, h, j, f, c.status);
    InsertedInPrefix(cfg, steps, h, k, f, c);
  }

  // A submission at work on its photos, or in conflict.
  predicate AtWork(st: Stage) {
    st.Writing? || st.Conflicted?
  }

  lemma StaysAtWork(s: System, cfg: Config, step: Step, h: nat)
    requires OwnStep(step, h) && Enabled(s, step) && !step.AssessRisk?
    requires h in Next(s, cfg, step).handlers && AtWork(Next(s, cfg, step).handlers[h].stage)
    ensures h in s.handlers && AtWork(s.handlers[h].stage) && s.handlers[h].form == Next(s, cfg, step).handlers[h].form
    ensures s.handlers[h].stage.status == Next(s, cfg, step).handlers[h].stage.status
  {
  }

  lemma AssessGives(s: System, cfg: Config, step: Step, h: nat)
    requires OwnStep(step, h) && Enabled(s, step) && step.AssessRisk?
    requires h in Next(s, cfg, step).handlers && AtWork(Next(s, cfg, step).handlers[h].stage)
    ensures step.dbOk && h in s.handlers && s.handlers[h].form == Next(s, cfg, step).handlers[h].form
    ensures var f := s.handlers[h].form;
            && !YoungClaim(s.claims, f, step.now, cfg.policy)
            && Next(s, cfg, step).handlers[h].stage.status == StatusFor(s.claims, f, step.facts, step.now, cfg.policy)
  {
    DuplicateIffYoung(s.claims, s.handlers[h].form, step.facts, step.now, cfg.policy);
    StatusIsPlain(s.claims, s.handlers[h].form, step.facts, step.now, cfg.policy);
  }

  lemma {:induction false} WorkIsAssessed(cfg: Config, steps: seq<Step>, h: nat)
    requires h in Run(cfg, steps).handlers && AtWork(Run(cfg, steps).handlers[h].stage)
    ensures var Handler(f, st) := Run(cfg, steps).handlers[h];
            exists j: nat :: j < |steps| && Assessed(cfg, steps, h, j, f, st.status)
  {
    if steps != [] {
      var n, step := |steps| - 1, steps[|steps| - 1];
      var s := Run(cfg, steps[..n]);
      var Handler(f, st) := Run(cfg, steps).handlers[h];
      RunLast(cfg, steps);
      if OwnStep(step, h) && Enabled(s, step) && step.AssessRisk? {
        AssessGives(s, cfg, step, h);
        assert Assessed(cfg, steps, h, n, f, st.status);
      } else {
        if OwnStep(step, h) && Enabled(s, step) {
          StaysAtWork(s, cfg, step, h);
        } else {
          OthersUntouched(s, cfg, step, h);
        }
        WorkIsAssessed(cfg, steps[..n], h);
        var j: nat :| j < n && Assessed(cfg, steps[..n], h, j, f, st.status);
        AssessedInPrefix(cfg, steps, h, j, f, st.status);
      }
    }
  }

  // The claim that a step adds.
  lemma CreatedIs(s: System, cfg: Config, step: Step, c: ClaimRec)
    requires HandlerInv(s, cfg, if Creates(s, step) then step.h else 0)
    requires c in Next(s, cfg, step).claims && c !in s.claims
    ensures Creates(s, step) && AtWork(s.handlers[step.h].stage) && IsOf(c, s.handlers[step.h].form)
    ensures c.status == s.handlers[step.h].stage.status && c.id == step.id
    ensures c.expiresAt == step.now + cfg.retention && c.createdAt == step.createdAt
  {
    if !Creates(s, step) {
      ClaimsUnchanged(s, cfg, step);
    }
  }

  lemma NewIsBorn(cfg: Config, steps: seq<Step>, c: ClaimRec)
    requires steps != [] && c in Run(cfg, steps).claims && c !in Run(cfg, steps[..|steps| - 1]).claims
    ensures steps[|steps| - 1].InsertClaim?
    ensures var h := steps[|steps| - 1].h;
            h in Run(cfg, steps).handlers && Born(cfg, steps, h, Run(cfg, steps).handlers[h].form, c)
            && Run(cfg, steps).handlers[h].stage == Replied(Created(c.id))
  {
    var n, step := |steps| - 1, steps[|steps| - 1];
    var s := Run(cfg, steps[..n]);
    RunLast(cfg, steps);
    RunKeepsInv(cfg, steps[..n]);
    assert forall h :: HandlerInv(s, cfg, h);
    CreatedIs(s, cfg, step, c);
    var h, f := step.h, s.handlers[step.h].form;
    WorkIsAssessed(cfg, steps[..n], h);
    var j: nat :| j < n && Assessed(cfg, steps[..n], h, j, f, c.status);
    AssessedInPrefix(cfg, steps, h, j, f, c.status);
    assert InsertedAt(cfg, steps, h, n, f, c);
  }

  /** In every interleaving, every stored claim has the form, the status and the dates of one
      submission that was answered with it: the status that the mark, the amount and the phone's
      count called for at that submission's risk read, which found no claim too young, and the dates
      of its insert, which found its key free. */
  lemma {:induction false} EveryClaimIsBorn(cfg: Config, steps: seq<Step>, c: ClaimRec) returns (h: nat)
    requires c in Run(cfg, steps).claims
    ensures h in Run(cfg, steps).handlers && Run(cfg, steps).handlers[h].stage == Replied(Created(c.id))
    ensures Born(cfg, steps, h, Run(cfg, steps).handlers[h].form, c)
  {
    var n, step := |steps| - 1, steps[|steps| - 1];
    if c in Run(cfg, steps[..n]).claims {
      h := EveryClaimIsBorn(cfg, steps[..n], c);
      RunLast(cfg, steps);
      AnswerStays(Run(cfg, steps[..n]), cfg, step, h);
      BornInPrefix(cfg, steps, h, Run(cfg, steps).handlers[h].form, c);
    } else {
      NewIsBorn(cfg, steps, c);
      h := step.h;
    }
  }

  /** In every interleaving, a submission whose own steps all go well is answered "created" when it
      is answered at all. Its claim then carries its form and as many photos as it had, with the
      status called for at its own risk read and the dates of its own insert; those photos are all
      the keys it ever drew, and until they expire every one of them is stored and has its row. */
  lemma SmoothIsCreated(cfg: Config, steps: seq<Step>, h: nat)
    requires Smooth(cfg, steps, h) && h in Run(cfg, steps).handlers && Run(cfg, steps).handlers[h].stage.Replied?
    ensures var s := Run(cfg, steps);
            exists c :: c in s.claims && s.handlers[h].stage == Replied(Created(c.id)) && IsOf(c, s.handlers[h].form)
                        && Born(cfg, steps, h, s.handlers[h].form, c)
                        && DrewExactly(s, h, c.keys) && (s.clock < c.expiresAt ==> AllStored(s, c))
  {
    var s := Run(cfg, steps);
    SmoothGoesOn(cfg, steps, h);
    RunDraws(cfg, steps, h);
    RunKeepsInv(cfg, steps);
    var c :| c in s.claims && c.id == s.handlers[h].stage.reply.id && IsOf(c, s.handlers[h].form)
             && DrewExactly(s, h, c.keys);
    var g := EveryClaimIsBorn(cfg, steps, c);
    IntakeTheorems.EachClaimHasOneCreator(cfg, steps);
    assert g == h;
    if s.clock < c.expiresAt {
      UnexpiredIsStored(s, cfg, c);
    }
  }

  ghost predicate AllStored(s: System, c: ClaimRec) {
    forall k :: k in c.keys ==> k in s.media && k in s.rows && s.rows[k] == PhotoRow(c.id, c.expiresAt)
  }

  lemma UnexpiredIsStored(s: System, cfg: Config, c: ClaimRec)
    requires Inv(s, cfg) && c in s.claims && s.clock < c.expiresAt
    ensures AllStored(s, c)
  {
    assert ClaimInv(s, cfg, c);
    forall k | k in c.keys
      ensures k in s.media
    {
      assert KeyInv(s, k);
    }
  }

  // ----- a submission that was not stored -----

  // Photo rows belong to submissions that were told "created".
  ghost predicate RowsAreCreated(s: System) {
    forall k :: k in s.rows ==>
      && k in s.owner && s.owner[k] in s.handlers && s.handlers[s.owner[k]].stage.Replied?
      && s.handlers[s.owner[k]].stage.reply.Created?
  }

  lemma StepKeepsRowsCreated(s: System, cfg: Config, step: Step)
    requires Inv(s, cfg) && RowsAreCreated(s)
    ensures RowsAreCreated(Next(s, cfg, step))
  {
    var s' := Next(s, cfg, step);
    forall k | k in s'.rows
      ensures k in s'.owner && s'.owner[k] in s'.handlers && s'.handlers[s'.owner[k]].stage.Replied?
              && s'.handlers[s'.owner[k]].stage.reply.Created?
    {
      RowIsCreated(s, cfg, step, k);
    }
  }

  lemma RowIsCreated(s: System, cfg: Config, step: Step, k: Key)
    requires Inv(s, cfg) && RowsAreCreated(s) && k in Next(s, cfg, step).rows
    ensures var s' := Next(s, cfg, step);
            && k in s'.owner && s'.owner[k] in s'.handlers && s'.handlers[s'.owner[k]].stage.Replied?
            && s'.handlers[s'.owner[k]].stage.reply.Created?
  {
    if Creates(s, step) && k in s.handlers[step.h].stage.written {
      assert HeldBy(s, step.h, k) && KeyInv(s, k);
    } else {
      RowIsOld(s, cfg, step, k);
      AnswerStays(s, cfg, step, s.owner[k]);
      OwnerStays(s, cfg, step, k);
    }
  }

  lemma RowIsOld(s: System, cfg: Config, step: Step, k: Key)
    requires k in Next(s, cfg, step).rows && !(Creates(s, step) && k in s.handlers[step.h].stage.written)
    ensures k in s.rows
  {
  }

  lemma OwnerStays(s: System, cfg: Config, step: Step, k: Key)
    requires k in s.owner
    ensures k in Next(s, cfg, step).owner && Next(s, cfg, step).owner[k] == s.owner[k]
  {
  }

  lemma {:induction false} RowsAreOfCreated(cfg: Config, steps: seq<Step>)
    ensures RowsAreCreated(Run(cfg, steps))
  {
    if steps != [] {
      RowsAreOfCreated(cfg, steps[..|steps| - 1]);
      RunKeepsInv(cfg, steps[..|steps| - 1]);
      StepKeepsRowsCreated(Run(cfg, steps[..|steps| - 1]), cfg, steps[|steps| - 1]);
    }
  }

  /** A submission with any other final answer has left nothing behind but files whose deletion
      failed: no row bears a key it drew, and no such file is stored otherwise. */
  lemma OthersLeaveNothing(cfg: Config, steps: seq<Step>, h: nat, k: Key)
    requires h in Run(cfg, steps).handlers && Run(cfg, steps).handlers[h].stage.Replied?
    requires !Run(cfg, steps).handlers[h].stage.reply.Created? && Drew(Run(cfg, steps), h, k)
    ensures k !in Run(cfg, steps).rows
    ensures k in Run(cfg, steps).media ==> k in Run(cfg, steps).orphans
  {
    RowsAreOfCreated(cfg, steps);
    RunKeepsInv(cfg, steps);
    assert KeyInv(Run(cfg, steps), k);
  }
}
