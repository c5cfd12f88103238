/** Intake policy and risk evaluation (internal/domain/policy.go, internal/domain/risk.go).

    Reasons keep their codes; the sentences shown to the owner are not modelled. */
module Risk {
  import opened Common
  import opened ClaimDomain
  import opened Sequences

  const WINDOW_30D := 30 * 24 * 3_600_000_000_000

  const CONTACT_NORMAL := "normal"
  const CONTACT_WATCH := "watch"
  const CONTACT_BLOCKED := "blocked"

  datatype Policy = Policy(
    reviewThresholdKrw: int, repeatWatchCount: int, repeatHoldCount: int, accountSharingPhones: int,
    payoutCeilingKrw: int, maxAmountKrw: int, rapidDuplicateWindow: int)

  datatype Facts = Facts(
    amountKrw: int, phoneClaims30d: int, phonePaidTotal30d: int, accountDistinctPhones: int,
    hasAccount: bool, manualStatus: string, lastSameMachineAt: Option<int>, now: int)

  datatype Rule = ManualRule | RepeatRule | SharingRule | CeilingRule | HighAmountRule

  datatype Reason = ManualBlock | ManualWatch | RepeatWatch | RepeatHold | AccountSharing | PayoutCeiling | HighAmount

  datatype Hit = Hit(reason: Reason, status: Status, weight: nat)

  datatype RiskResult = RiskResult(score: int, reasons: seq<Reason>, status: Status, rejectDuplicate: bool)

  const RULES := [ManualRule, RepeatRule, SharingRule, CeilingRule, HighAmountRule]

  predicate ValidAmount(krw: int, p: Policy) {
    0 < krw <= p.maxAmountKrw
  }

  predicate RequiresPhoto(krw: int, p: Policy) {
    krw >= p.reviewThresholdKrw
  }

  function Fire(r: Rule, f: Facts, p: Policy): Option<Hit> {
    match r
    case ManualRule =>
      if f.manualStatus == CONTACT_BLOCKED then Some(Hit(ManualBlock, OnHold, 60))
      else if f.manualStatus == CONTACT_WATCH then Some(Hit(ManualWatch, NeedsReview, 20))
      else None
    case RepeatRule =>
      if f.phoneClaims30d >= p.repeatHoldCount then Some(Hit(RepeatHold, OnHold, 50))
      else if f.phoneClaims30d >= p.repeatWatchCount then Some(Hit(RepeatWatch, NeedsReview, 25))
      else None
    case SharingRule =>
      if !f.hasAccount || f.accountDistinctPhones < p.accountSharingPhones then None
      else Some(Hit(AccountSharing, NeedsReview, 30))
    case CeilingRule =>
      if f.phonePaidTotal30d <= p.payoutCeilingKrw then None else Some(Hit(PayoutCeiling, NeedsReview, 20))
    case HighAmountRule =>
      if f.amountKrw < p.reviewThresholdKrw then None else Some(Hit(HighAmount, NeedsReview, 15))
  }

  function StatusRank(s: Status): nat {
    match s
    case NeedsReview => 1
    case OnHold => 2
    case _ => 0
  }

  function Stronger(a: Status, b: Status): Status {
    if StatusRank(b) > StatusRank(a) then b else a
  }

  predicate IsRapidDuplicate(f: Facts, p: Policy) {
    f.lastSameMachineAt.Some? && f.now - f.lastSameMachineAt.value < p.rapidDuplicateWindow
  }

  // ----- the evaluation over any list of rules -----

  function Weight(r: Rule, f: Facts, p: Policy): nat {
    if Fire(r, f, p).Some? then Fire(r, f, p).value.weight else 0
  }

  function RuleRank(r: Rule, f: Facts, p: Policy): nat {
    if Fire(r, f, p).Some? then StatusRank(Fire(r, f, p).value.status) else 0
  }

  function TotalWeight(rules: seq<Rule>, f: Facts, p: Policy): nat {
    if rules == [] then 0
    else TotalWeight(rules[..|rules| - 1], f, p) + Weight(rules[|rules| - 1], f, p)
  }

  function StatusOver(rules: seq<Rule>, f: Facts, p: Policy): Status {
    if rules == [] then Pending
    else
      var hit := Fire(rules[|rules| - 1], f, p);
      var s := StatusOver(rules[..|rules| - 1], f, p);
      if hit.Some? then Stronger(s, hit.value.status) else s
  }

  function Fired(rules: seq<Rule>, f: Facts, p: Policy): seq<Reason> {
    if rules == [] then []
    else
      var hit := Fire(rules[|rules| - 1], f, p);
      Fired(rules[..|rules| - 1], f, p) + if hit.Some? then [hit.value.reason] else []
  }

  function Cap(n: int): int {
    if n > 100 then 100 else n
  }

  function EvaluateOver(rules: seq<Rule>, f: Facts, p: Policy): RiskResult {
    RiskResult(Cap(TotalWeight(rules, f, p)), Fired(rules, f, p), StatusOver(rules, f, p), IsRapidDuplicate(f, p))
  }

  function Evaluate(f: Facts, p: Policy): RiskResult {
    EvaluateOver(RULES, f, p)
  }

  // The evaluation loop; the source runs it on RULES.
  method RunEvaluate(rules: seq<Rule>, f: Facts, p: Policy) returns (res: RiskResult)
    ensures res == EvaluateOver(rules, f, p)
  {
    res := RiskResult(0, [], Pending, false);
    if IsRapidDuplicate(f, p) {
      res := res.(rejectDuplicate := true);
    }
    var score := 0;
    var i := 0;
    while i < |rules|
      invariant 0 <= i <= |rules|
      invariant res == RiskResult(0, Fired(rules[..i], f, p), StatusOver(rules[..i], f, p), IsRapidDuplicate(f, p))
      invariant score == TotalWeight(rules[..i], f, p)
    {
      assert rules[..i + 1][..i] == rules[..i];
      var hit := Fire(rules[i], f, p);
      if hit.Some? {
        res := res.(reasons := res.reasons + [hit.value.reason], status := Stronger(res.status, hit.value.status));
        score := score + hit.value.weight;
      }
      i := i + 1;
    }
    assert rules[..i] == rules;
    if score > 100 {
      score := 100;
    }
    res := res.(score := score);
  }

  // `rank` is the highest rank among the fired rules, or 0 when none fired.
  ghost predicate IsTopRank(rank: nat, rules: seq<Rule>, f: Facts, p: Policy) {
    && (forall r :: r in rules ==> RuleRank(r, f, p) <= rank)
    && (rank > 0 ==> exists r :: r in rules && RuleRank(r, f, p) == rank)
  }

  lemma {:induction false} StatusOverIsTop(rules: seq<Rule>, f: Facts, p: Policy)
    ensures StatusOver(rules, f, p) in {Pending, NeedsReview, OnHold}
    ensures IsTopRank(StatusRank(StatusOver(rules, f, p)), rules, f, p)
  {
    if rules != [] {
      var init, last := rules[..|rules| - 1], rules[|rules| - 1];
      StatusOverIsTop(init, f, p);
      assert forall r :: r in rules <==> r in init || r == last;
      if StatusOver(rules, f, p) == StatusOver(init, f, p) {
        if StatusRank(StatusOver(init, f, p)) > 0 {
          var r :| r in init && RuleRank(r, f, p) == StatusRank(StatusOver(init, f, p));
          assert r in rules;
        }
      } else {
        assert last in rules && RuleRank(last, f, p) == StatusRank(StatusOver(rules, f, p));
      }
    }
  }

  lemma {:induction false} WeightWithout(a: seq<Rule>, x: Rule, b: seq<Rule>, f: Facts, p: Policy)
    ensures TotalWeight(a + [x] + b, f, p) == TotalWeight(a + b, f, p) + Weight(x, f, p)
    decreases |b|
  {
    if b == [] {
      assert (a + [x] + b)[..|a|] == a && a + b == a;
    } else {
      var init := b[..|b| - 1];
      WeightWithout(a, x, init, f, p);
      assert (a + [x] + b)[..|a| + |b|] == a + [x] + init;
      assert (a + b)[..|a + b| - 1] == a + init;
    }
  }

  lemma {:induction false} WeightPermutes(a: seq<Rule>, b: seq<Rule>, f: Facts, p: Policy)
    requires multiset(a) == multiset(b)
    ensures TotalWeight(a, f, p) == TotalWeight(b, f, p)
    decreases |a|
  {
    if a == [] {
      assert |multiset(b)| == 0;
    } else {
      var init, x := a[..|a| - 1], a[|a| - 1];
      var k := TakeOut(a, b);
      WeightPermutes(init, b[..k] + b[k + 1..], f, p);
      WeightWithout(b[..k], x, b[k + 1..], f, p);
    }
  }

  /** Status and score depend only on which rules are run, not on their order. */
  lemma OrderIndependent(rules: seq<Rule>, f: Facts, p: Policy)
    requires multiset(rules) == multiset(RULES)
    ensures EvaluateOver(rules, f, p).status == Evaluate(f, p).status
    ensures EvaluateOver(rules, f, p).score == Evaluate(f, p).score
  {
    WeightPermutes(rules, RULES, f, p);
    StatusOverIsTop(rules, f, p);
    StatusOverIsTop(RULES, f, p);
    assert forall r :: r in rules <==> r in multiset(rules);
    assert forall r :: r in RULES <==> r in multiset(RULES);
  }

  lemma EveryRuleRuns(r: Rule)
    ensures r in RULES
  {
  }

  // ----- monotonicity -----

  function ContactRank(s: string): nat {
    if s == CONTACT_BLOCKED then 2 else if s == CONTACT_WATCH then 1 else 0
  }

  predicate NoWorse(f: Facts, g: Facts) {
    && f.amountKrw <= g.amountKrw && f.phoneClaims30d <= g.phoneClaims30d
    && f.phonePaidTotal30d <= g.phonePaidTotal30d && f.accountDistinctPhones <= g.accountDistinctPhones
    && (f.hasAccount ==> g.hasAccount) && ContactRank(f.manualStatus) <= ContactRank(g.manualStatus)
  }

  lemma RuleMonotone(r: Rule, f: Facts, g: Facts, p: Policy)
    requires NoWorse(f, g)
    ensures Weight(r, f, p) <= Weight(r, g, p)
    ensures RuleRank(r, f, p) <= RuleRank(r, g, p)
  {
  }

  lemma {:induction false} WeightMonotone(rules: seq<Rule>, f: Facts, g: Facts, p: Policy)
    requires NoWorse(f, g)
    ensures TotalWeight(rules, f, p) <= TotalWeight(rules, g, p)
  {
    if rules != [] {
      WeightMonotone(rules[..|rules| - 1], f, g, p);
      RuleMonotone(rules[|rules| - 1], f, g, p);
    }
  }

  /** For every policy, whatever raises a fact never lowers the status or the score. */
  lemma EvaluateMonotone(f: Facts, g: Facts, p: Policy)
    requires NoWorse(f, g)
    ensures StatusRank(Evaluate(f, p).status) <= StatusRank(Evaluate(g, p).status)
    ensures 0 <= Evaluate(f, p).score <= Evaluate(g, p).score <= 100
  {
    WeightMonotone(RULES, f, g, p);
    StatusOverIsTop(RULES, f, p);
    StatusOverIsTop(RULES, g, p);
    forall r { RuleMonotone(r, f, g, p); }
  }

  lemma {:induction false} NothingFired(rules: seq<Rule>, f: Facts, p: Policy)
    ensures Fired(rules, f, p) == [] <==> forall r :: r in rules ==> Fire(r, f, p).None?
    ensures TotalWeight(rules, f, p) == 0 <==> forall r :: r in rules ==> Fire(r, f, p).None?
    ensures StatusOver(rules, f, p) == Pending <==> forall r :: r in rules ==> Fire(r, f, p).None?
  {
    if rules != [] {
      var init, last := rules[..|rules| - 1], rules[|rules| - 1];
      NothingFired(init, f, p);
      StatusOverIsTop(init, f, p);
      assert forall r :: r in rules <==> r in init || r == last;
    }
  }

  /** A claim stays pending, with score zero and no reasons, exactly when no rule fired. */
  lemma PendingIffNothingFired(f: Facts, p: Policy)
    ensures var res := Evaluate(f, p);
            && (res.status == Pending <==> forall r :: Fire(r, f, p).None?)
            && (res.score == 0 <==> res.status == Pending)
            && (res.reasons == [] <==> res.status == Pending)
            && res.status in {Pending, NeedsReview, OnHold}
  {
    StatusOverIsTop(RULES, f, p);
    NothingFired(RULES, f, p);
    forall r { EveryRuleRuns(r); }
  }

  /** The two thresholds agree: an amount that needs a photo is never left pending, and the
      claim that reaches the hold count is put on hold. */
  lemma ThresholdsBind(f: Facts, p: Policy)
    ensures RequiresPhoto(f.amountKrw, p) ==> Evaluate(f, p).status != Pending
    ensures f.phoneClaims30d >= p.repeatHoldCount ==> Evaluate(f, p).status == OnHold
  {
    PendingIffNothingFired(f, p);
    StatusOverIsTop(RULES, f, p);
    EveryRuleRuns(RepeatRule);
    EveryRuleRuns(HighAmountRule);
    if RequiresPhoto(f.amountKrw, p) {
      assert Fire(HighAmountRule, f, p).Some?;
    }
    if f.phoneClaims30d >= p.repeatHoldCount {
      assert RuleRank(RepeatRule, f, p) == 2;
    }
  }

  predicate MustHold(f: Facts, p: Policy) {
    f.manualStatus == CONTACT_BLOCKED || f.phoneClaims30d >= p.repeatHoldCount
  }

  predicate MustReview(f: Facts, p: Policy) {
    || f.manualStatus == CONTACT_WATCH || f.phoneClaims30d >= p.repeatWatchCount
    || (f.hasAccount && f.accountDistinctPhones >= p.accountSharingPhones)
    || f.phonePaidTotal30d > p.payoutCeilingKrw || RequiresPhoto(f.amountKrw, p)
  }

  /** For every policy the status is decided by two plain conditions, hold before review. */
  lemma StatusExact(f: Facts, p: Policy)
    ensures Evaluate(f, p).status ==
            if MustHold(f, p) then OnHold else if MustReview(f, p) then NeedsReview else Pending
  {
    StatusOverIsTop(RULES, f, p);
    forall r { EveryRuleRuns(r); }
    if MustHold(f, p) {
      assert RuleRank(ManualRule, f, p) == 2 || RuleRank(RepeatRule, f, p) == 2;
    } else if MustReview(f, p) {
      assert RuleRank(ManualRule, f, p) == 1 || RuleRank(RepeatRule, f, p) == 1 || RuleRank(SharingRule, f, p) == 1
             || RuleRank(CeilingRule, f, p) == 1 || RuleRank(HighAmountRule, f, p) == 1;
    }
  }

  /** For every policy the score is this sum, at most 100. */
  lemma ScoreExact(f: Facts, p: Policy)
    ensures Evaluate(f, p).score == Cap(
              (if f.manualStatus == CONTACT_BLOCKED then 60 else if f.manualStatus == CONTACT_WATCH then 20 else 0)
              + (if f.phoneClaims30d >= p.repeatHoldCount then 50
                 else if f.phoneClaims30d >= p.repeatWatchCount then 25 else 0)
              + (if f.hasAccount && f.accountDistinctPhones >= p.accountSharingPhones then 30 else 0)
              + (if f.phonePaidTotal30d > p.payoutCeilingKrw then 20 else 0)
              + (if RequiresPhoto(f.amountKrw, p) then 15 else 0))
  {
    WeightSnoc([], ManualRule, f, p);
    WeightSnoc([ManualRule], RepeatRule, f, p);
    WeightSnoc([ManualRule, RepeatRule], SharingRule, f, p);
    WeightSnoc([ManualRule, RepeatRule, SharingRule], CeilingRule, f, p);
    WeightSnoc([ManualRule, RepeatRule, SharingRule, CeilingRule], HighAmountRule, f, p);
    assert RULES == [ManualRule, RepeatRule, SharingRule, CeilingRule] + [HighAmountRule];
    assert [] + [ManualRule] == [ManualRule];
    assert [ManualRule] + [RepeatRule] == [ManualRule, RepeatRule];
    assert [ManualRule, RepeatRule] + [SharingRule] == [ManualRule, RepeatRule, SharingRule];
    assert [ManualRule, RepeatRule, SharingRule] + [CeilingRule]
           == [ManualRule, RepeatRule, SharingRule, CeilingRule];
  }

  lemma WeightSnoc(rules: seq<Rule>, x: Rule, f: Facts, p: Policy)
    ensures TotalWeight(rules + [x], f, p) == TotalWeight(rules, f, p) + Weight(x, f, p)
  {
    assert (rules + [x])[..|rules|] == rules;
  }

  /** For every policy the reasons are these, one per ground that applies, in the order of the rules. */
  lemma ReasonsExact(f: Facts, p: Policy)
    ensures Evaluate(f, p).reasons ==
            (if f.manualStatus == CONTACT_BLOCKED then [ManualBlock]
             else if f.manualStatus == CONTACT_WATCH then [ManualWatch] else [])
            + (if f.phoneClaims30d >= p.repeatHoldCount then [RepeatHold]
               else if f.phoneClaims30d >= p.repeatWatchCount then [RepeatWatch] else [])
            + (if f.hasAccount && f.accountDistinctPhones >= p.accountSharingPhones then [AccountSharing] else [])
            + (if f.phonePaidTotal30d > p.payoutCeilingKrw then [PayoutCeiling] else [])
            + (if f.amountKrw >= p.reviewThresholdKrw then [HighAmount] else [])
  {
    FiredByRule(f, p);
    ManualReason(f, p);
    RepeatReason(f, p);
    OtherReasons(f, p);
  }

  lemma ManualReason(f: Facts, p: Policy)
    ensures ReasonOf(ManualRule, f, p) == if f.manualStatus == CONTACT_BLOCKED then [ManualBlock]
                                          else if f.manualStatus == CONTACT_WATCH then [ManualWatch] else []
  {
  }

  lemma RepeatReason(f: Facts, p: Policy)
    ensures ReasonOf(RepeatRule, f, p) == if f.phoneClaims30d >= p.repeatHoldCount then [RepeatHold]
                                          else if f.phoneClaims30d >= p.repeatWatchCount then [RepeatWatch] else []
  {
  }

  lemma OtherReasons(f: Facts, p: Policy)
    ensures ReasonOf(SharingRule, f, p) ==
            if f.hasAccount && f.accountDistinctPhones >= p.accountSharingPhones then [AccountSharing] else []
    ensures ReasonOf(CeilingRule, f, p) == if f.phonePaidTotal30d > p.payoutCeilingKrw then [PayoutCeiling] else []
    ensures ReasonOf(HighAmountRule, f, p) == if f.amountKrw >= p.reviewThresholdKrw then [HighAmount] else []
  {
  }

  function ReasonOf(r: Rule, f: Facts, p: Policy): seq<Reason> {
    if Fire(r, f, p).Some? then [Fire(r, f, p).value.reason] else []
  }

  lemma FiredByRule(f: Facts, p: Policy)
    ensures Evaluate(f, p).reasons ==
            ReasonOf(ManualRule, f, p) + ReasonOf(RepeatRule, f, p) + ReasonOf(SharingRule, f, p)
            + ReasonOf(CeilingRule, f, p) + ReasonOf(HighAmountRule, f, p)
  {
    FiredSnoc([], ManualRule, f, p);
    FiredSnoc([ManualRule], RepeatRule, f, p);
    FiredSnoc([ManualRule, RepeatRule], SharingRule, f, p);
    FiredSnoc([ManualRule, RepeatRule, SharingRule], CeilingRule, f, p);
    FiredSnoc([ManualRule, RepeatRule, SharingRule, CeilingRule], HighAmountRule, f, p);
    assert RULES == [ManualRule, RepeatRule, SharingRule, CeilingRule] + [HighAmountRule];
    assert [] + [ManualRule] == [ManualRule];
    assert [ManualRule] + [RepeatRule] == [ManualRule, RepeatRule];
    assert [ManualRule, RepeatRule] + [SharingRule] == [ManualRule, RepeatRule, SharingRule];
    assert [ManualRule, RepeatRule, SharingRule] + [CeilingRule]
           == [ManualRule, RepeatRule, SharingRule, CeilingRule];
    assert Fired([], f, p) + ReasonOf(ManualRule, f, p) == ReasonOf(ManualRule, f, p);
  }

  lemma FiredSnoc(rules: seq<Rule>, x: Rule, f: Facts, p: Policy)
    ensures Fired(rules + [x], f, p) == Fired(rules, f, p) + ReasonOf(x, f, p)
  {
    assert (rules + [x])[..|rules|] == rules;
  }
}
