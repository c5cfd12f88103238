/** What every schedule of overlapping submissions, failures and purges keeps. */
module IntakeTheorems {
  import opened Common
  import opened ClaimDomain
  import opened Risk
  import opened Intake

  predicate GotReceipt(h: Handler) {
    h.stage.Replied? && (h.stage.reply.Created? || h.stage.reply.Existing?)
  }

  predicate GotCreated(h: Handler) {
    h.stage.Replied? && h.stage.reply.Created?
  }

  /** One claim per (store, key) for every interleaving, and every submission with that key that
      was given a receipt was given the same one. */
  lemma OneClaimPerKey(cfg: Config, steps: seq<Step>)
    ensures UniqueClaims(Run(cfg, steps).claims)
    ensures forall g, h :: var hs := Run(cfg, steps).handlers;
              g in hs && h in hs && GotReceipt(hs[g]) && GotReceipt(hs[h])
              && hs[g].form.storeId == hs[h].form.storeId && hs[g].form.idemKey == hs[h].form.idemKey
              ==> hs[g].stage.reply.id == hs[h].stage.reply.id
  {
    RunKeepsInv(cfg, steps);
    var s := Run(cfg, steps);
    forall g, h | g in s.handlers && h in s.handlers && GotReceipt(s.handlers[g]) && GotReceipt(s.handlers[h])
                  && s.handlers[g].form.storeId == s.handlers[h].form.storeId
                  && s.handlers[g].form.idemKey == s.handlers[h].form.idemKey
      ensures s.handlers[g].stage.reply.id == s.handlers[h].stage.reply.id
    {
      assert HandlerInv(s, cfg, g) && HandlerInv(s, cfg, h);
    }
  }

  ghost predicate CreatorsDiffer(s: System) {
    forall g, h :: g in s.handlers && h in s.handlers && g != h && GotCreated(s.handlers[g]) && GotCreated(s.handlers[h])
                   ==> s.handlers[g].stage.reply.id != s.handlers[h].stage.reply.id
  }

  // A step gives at most one submission a "created" reply, with an id no claim had before.
  lemma NewCreator(s: System, cfg: Config, step: Step, g: nat)
    requires Inv(s, cfg) && g in Next(s, cfg, step).handlers && GotCreated(Next(s, cfg, step).handlers[g])
    requires g !in s.handlers || Next(s, cfg, step).handlers[g] != s.handlers[g]
    ensures step.InsertClaim? && step.h == g && Enabled(s, step)
    ensures Next(s, cfg, step).handlers[g].stage.reply.id == step.id
  {
    assert HandlerInv(s, cfg, g);
  }

  /** No two submissions were both told that they created the same claim. */
  lemma {:induction false} EachClaimHasOneCreator(cfg: Config, steps: seq<Step>)
    ensures CreatorsDiffer(Run(cfg, steps))
  {
    if steps != [] {
      var s, step := Run(cfg, steps[..|steps| - 1]), steps[|steps| - 1];
      EachClaimHasOneCreator(cfg, steps[..|steps| - 1]);
      RunKeepsInv(cfg, steps[..|steps| - 1]);
      var s' := Next(s, cfg, step);
      forall g, h | g in s'.handlers && h in s'.handlers && g != h && GotCreated(s'.handlers[g]) && GotCreated(s'.handlers[h])
        ensures s'.handlers[g].stage.reply.id != s'.handlers[h].stage.reply.id
      {
        if h in s.handlers && s'.handlers[h] == s.handlers[h] {
          DifferFromNew(s, cfg, step, g, h);
        } else {
          NewCreator(s, cfg, step, h);
          DifferFromNew(s, cfg, step, h, g);
        }
      }
    }
  }

  lemma DifferFromNew(s: System, cfg: Config, step: Step, g: nat, h: nat)
    requires Inv(s, cfg) && CreatorsDiffer(s) && g != h
    requires g in Next(s, cfg, step).handlers && GotCreated(Next(s, cfg, step).handlers[g])
    requires h in Next(s, cfg, step).handlers && GotCreated(Next(s, cfg, step).handlers[h])
    requires h in s.handlers && Next(s, cfg, step).handlers[h] == s.handlers[h]
    ensures Next(s, cfg, step).handlers[g].stage.reply.id != Next(s, cfg, step).handlers[h].stage.reply.id
  {
    if g !in s.handlers || Next(s, cfg, step).handlers[g] != s.handlers[g] {
      NewCreator(s, cfg, step, g);
      assert HandlerInv(s, cfg, h);
    }
  }

  // ----- photos -----

  predicate DeleteFails(step: Step) {
    (step.CleanOne? || step.PurgeFile? || step.PurgeRow?) && !step.ok
  }

  // Files without a row or a handler, and rows without a file, exist only inside one purge step.
  ghost predicate Tidy(s: System) {
    && s.orphans == {}
    && s.missing <= if s.purge.Purging? && s.purge.fileDone && s.purge.left != [] then {s.purge.left[0]} else {}
  }

  lemma StepStaysTidy(s: System, cfg: Config, step: Step)
    requires Inv(s, cfg) && Tidy(s) && !DeleteFails(step)
    ensures Tidy(Next(s, cfg, step))
  {
  }

  lemma {:induction false} NothingLeaks(cfg: Config, steps: seq<Step>)
    requires forall i :: 0 <= i < |steps| ==> !DeleteFails(steps[i])
    ensures Tidy(Run(cfg, steps))
  {
    if steps != [] {
      NothingLeaks(cfg, steps[..|steps| - 1]);
      RunKeepsInv(cfg, steps[..|steps| - 1]);
      StepStaysTidy(Run(cfg, steps[..|steps| - 1]), cfg, steps[|steps| - 1]);
    }
  }

  /** Conservation of files: when no submission is in flight, the purge is idle and no delete has
      failed, the stored files are exactly the ones the photo rows name. */
  lemma QuietMediaMatchesRows(cfg: Config, steps: seq<Step>)
    requires forall i :: 0 <= i < |steps| ==> !DeleteFails(steps[i])
    requires Run(cfg, steps).purge == Idle
    requires forall h :: h in Run(cfg, steps).handlers ==> Run(cfg, steps).handlers[h].stage.Replied?
    ensures Run(cfg, steps).media == Run(cfg, steps).rows.Keys
  {
    NothingLeaks(cfg, steps);
    RunKeepsInv(cfg, steps);
    var s := Run(cfg, steps);
    forall k
      ensures k in s.media <==> k in s.rows.Keys
    {
      assert KeyInv(s, k);
      assert forall h :: !HeldBy(s, h, k);
    }
  }

  /** Whatever else happens, a photo row that has not expired has its file, and an unexpired
      claim still has every photo it was submitted with. */
  lemma UnexpiredPhotosAreStored(cfg: Config, steps: seq<Step>)
    ensures var s := Run(cfg, steps);
            && (forall k :: k in s.rows && s.clock < s.rows[k].expiresAt ==> k in s.media)
            && (forall c, k :: c in s.claims && k in c.keys && s.clock < c.expiresAt ==>
                  k in s.media && k in s.rows && s.rows[k].claimId == c.id)
  {
    RunKeepsInv(cfg, steps);
    var s := Run(cfg, steps);
    forall k | k in s.rows && s.clock < s.rows[k].expiresAt
      ensures k in s.media
    {
      assert KeyInv(s, k);
    }
    forall c, k | c in s.claims && k in c.keys && s.clock < c.expiresAt
      ensures k in s.media && k in s.rows && s.rows[k].claimId == c.id
    {
      assert ClaimInv(s, cfg, c) && KeyInv(s, k);
    }
  }

  /** Every claim at or above the review threshold was created with a photo and never as
      pending. */
  lemma HighAmountsHavePhotos(cfg: Config, steps: seq<Step>, c: ClaimRec)
    requires c in Run(cfg, steps).claims && RequiresPhoto(c.amountKrw, cfg.policy)
    ensures c.keys != [] && c.status in {NeedsReview, OnHold}
  {
    RunKeepsInv(cfg, steps);
    assert ClaimInv(Run(cfg, steps), cfg, c);
  }

  /** Every claim has exactly one create event, in every interleaving. */
  lemma OneEventPerClaim(cfg: Config, steps: seq<Step>)
    ensures EventInv(Run(cfg, steps))
  {
    RunKeepsInv(cfg, steps);
  }

  // ----- a retry that overlaps its first attempt -----

  lemma RunSnoc(cfg: Config, steps: seq<Step>, step: Step)
    ensures Run(cfg, steps + [step]) == Next(Run(cfg, steps), cfg, step)
  {
    assert (steps + [step])[..|steps|] == steps;
  }

  const TWICE := Form("store", "key", "machine", "phone", 1, 0)

  const OPEN := Gate(MachineFound, true, Some(1))

  // Both copies of the form get through the gate and look the key up before either inserts.
  const BOTH := [Submit(0, TWICE, OPEN)] + [Submit(1, TWICE, OPEN)] + [LookupKey(0, true)] + [LookupKey(1, true)]

  lemma BothLookedUp(cfg: Config)
    requires ValidAmount(1, cfg.policy) && !RequiresPhoto(1, cfg.policy)
    ensures Run(cfg, BOTH) == INIT.(handlers := map[0 := Handler(TWICE, Checked), 1 := Handler(TWICE, Checked)])
  {
    var s1 := INIT.(handlers := map[0 := Handler(TWICE, Started)]);
    var s2 := INIT.(handlers := map[0 := Handler(TWICE, Started), 1 := Handler(TWICE, Started)]);
    var s3 := INIT.(handlers := map[0 := Handler(TWICE, Checked), 1 := Handler(TWICE, Started)]);
    RunSnoc(cfg, [], Submit(0, TWICE, OPEN));
    assert [] + [Submit(0, TWICE, OPEN)] == [Submit(0, TWICE, OPEN)];
    assert Run(cfg, [Submit(0, TWICE, OPEN)]) == s1;
    RunSnoc(cfg, [Submit(0, TWICE, OPEN)], Submit(1, TWICE, OPEN));
    assert Next(s1, cfg, Submit(1, TWICE, OPEN)) == s2;
    RunSnoc(cfg, [Submit(0, TWICE, OPEN)] + [Submit(1, TWICE, OPEN)], LookupKey(0, true));
    assert Next(s2, cfg, LookupKey(0, true)) == s3;
    RunSnoc(cfg, [Submit(0, TWICE, OPEN)] + [Submit(1, TWICE, OPEN)] + [LookupKey(0, true)], LookupKey(1, true));
  }

  // The first copy finds no earlier claim and is stored.
  function FirstStored(facts: Facts, at: int): seq<Step> {
    BOTH + [AssessRisk(0, facts, at, true)] + [InsertClaim(0, 7, at, at, true)]
  }

  lemma FirstIsStored(cfg: Config, facts: Facts, at: int)
    requires ValidAmount(1, cfg.policy) && !RequiresPhoto(1, cfg.policy)
    ensures var s := Run(cfg, FirstStored(facts, at));
            && s.handlers == map[0 := Handler(TWICE, Replied(Created(7))), 1 := Handler(TWICE, Checked)]
            && exists c :: s.claims == {c} && SameKey(c, TWICE) && SamePlace(c, TWICE) && c.createdAt == at
  {
    BothLookedUp(cfg);
    RunSnoc(cfg, BOTH, AssessRisk(0, facts, at, true));
    DuplicateIffYoung({}, TWICE, facts, at, cfg.policy);
    var s5 := Run(cfg, BOTH + [AssessRisk(0, facts, at, true)]);
    assert s5.handlers[0].stage.Writing? && s5.handlers[1] == Handler(TWICE, Checked) && s5.claims == {};
    RunSnoc(cfg, BOTH + [AssessRisk(0, facts, at, true)], InsertClaim(0, 7, at, at, true));
    var s6 := Run(cfg, FirstStored(facts, at));
    var c := NewClaim(TWICE, s5.handlers[0].stage.status, [], 7, at + cfg.retention, at);
    assert s6.claims == {c} && SameKey(c, TWICE) && SamePlace(c, TWICE) && c.createdAt == at;
  }

  /** A retry that overlaps its first attempt can be turned away: both look the key up before
      either inserts, the first is stored, and the second's risk read, `later` nanoseconds on,
      finds that very claim - for every policy with a window longer than that. */
  lemma OverlappingRetryRejected(cfg: Config, facts: Facts, at: int, later: nat)
    requires ValidAmount(1, cfg.policy) && !RequiresPhoto(1, cfg.policy) && later < cfg.policy.rapidDuplicateWindow
    ensures var hs := Run(cfg, FirstStored(facts, at) + [AssessRisk(1, facts, at + later, true)]).handlers;
            hs == map[0 := Handler(TWICE, Replied(Created(7))), 1 := Handler(TWICE, Replied(Duplicate))]
  {
    FirstIsStored(cfg, facts, at);
    var s := Run(cfg, FirstStored(facts, at));
    DuplicateIffYoung(s.claims, TWICE, facts, at + later, cfg.policy);
    RunSnoc(cfg, FirstStored(facts, at), AssessRisk(1, facts, at + later, true));
  }
}
