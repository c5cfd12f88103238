/** The step system and the handler's loops are one program: a submission whose steps run with
    nothing in between does exactly what the handler does. */
module IntakeAlone {
  import opened Common
  import opened ClaimDomain
  import opened Risk
  import opened Sequences
  import opened Intake
  import opened IntakeServer

  function DeskOf(s: System): Desk {
    Desk(s.claims, s.rows, s.media, s.created)
  }

  ghost function RunFrom(s: System, cfg: Config, steps: seq<Step>): System
    decreases |steps|
  {
    if steps == [] then s else RunFrom(Next(s, cfg, steps[0]), cfg, steps[1..])
  }

  lemma RunFirst(s: System, cfg: Config, step: Step, rest: seq<Step>)
    ensures RunFrom(s, cfg, [step] + rest) == RunFrom(Next(s, cfg, step), cfg, rest)
  {
    assert ([step] + rest)[1..] == rest;
  }

  lemma RunOne(s: System, cfg: Config, step: Step)
    ensures RunFrom(s, cfg, [step]) == Next(s, cfg, step)
  {
    assert [step][1..] == [];
  }

  lemma {:induction false} RunBoth(s: System, cfg: Config, a: seq<Step>, b: seq<Step>)
    ensures RunFrom(s, cfg, a + b) == RunFrom(RunFrom(s, cfg, a), cfg, b)
    decreases |a|
  {
    if a == [] {
      assert a + b == b;
    } else {
      assert (a + b)[1..] == a[1..] + b;
      RunBoth(Next(s, cfg, a[0]), cfg, a[1..], b);
    }
  }

  predicate OnlyOf(steps: seq<Step>, h: nat) {
    forall i :: 0 <= i < |steps| ==> OwnStep(steps[i], h)
  }

  // The state after some of h's steps: `media` and h's stage may differ.
  ghost predicate Reached(s: System, s': System, h: nat, f: Form, stage: Stage, media: set<Key>) {
    && s'.claims == s.claims && s'.rows == s.rows && s'.created == s.created && s'.media == media
    && s'.handlers == s.handlers[h := Handler(f, stage)]
  }

  predicate Undrawn(s: System, keys: seq<Key>) {
    NoRepeats(keys) && forall k :: k in keys ==> k !in s.owner
  }

  // The photos from the i-th on, up to the first that cannot be stored.
  lemma {:induction false} PutAlone(s: System, cfg: Config, h: nat, f: Form, status: Status, keys: seq<Key>, i: nat,
                                    puts: seq<bool>)
    returns (steps: seq<Step>)
    requires |keys| == |puts| == f.photos && i <= FirstFalse(puts)
    requires h in s.handlers && s.handlers[h] == Handler(f, Writing(status, keys[..i], 0)) && Undrawn(s, keys[i..])
    ensures OnlyOf(steps, h)
    ensures var n := FirstFalse(puts);
            Reached(s, RunFrom(s, cfg, steps), h, f,
                    if n == |keys| then Writing(status, keys, 0) else Settle(Failed, keys[..n]),
                    s.media + set k | k in keys[i..n])
    decreases |keys| - i
  {
    var n := FirstFalse(puts);
    if i == |keys| {
      assert keys[..i] == keys;
      steps := [];
    } else {
      assert keys[i] == keys[i..][0];
      if i < n {
        var s1 := Next(s, cfg, PutPhoto(h, keys[i], true));
        PutOne(s, cfg, h, f, status, keys, i);
        NextUndrawn(s, cfg, h, keys, i);
        var rest := PutAlone(s1, cfg, h, f, status, keys, i + 1, puts);
        RunFirst(s, cfg, PutPhoto(h, keys[i], true), rest);
        steps := [PutPhoto(h, keys[i], true)] + rest;
        SliceFirst(keys, i, n);
        FirstKey(keys[i], keys[i + 1..n], keys[i..n], s.media);
      } else {
        PutFails(s, cfg, h, f, status, keys, i);
        steps := [PutPhoto(h, keys[i], false)];
      }
    }
  }

  lemma FirstKey(key: Key, rest: seq<Key>, all: seq<Key>, media: set<Key>)
    requires all == [key] + rest
    ensures media + (set k | k in all) == (media + {key}) + set k | k in rest
  {
  }

  lemma PutOne(s: System, cfg: Config, h: nat, f: Form, status: Status, keys: seq<Key>, i: nat)
    requires i < |keys| == f.photos && keys[i] !in s.owner
    requires h in s.handlers && s.handlers[h] == Handler(f, Writing(status, keys[..i], 0))
    ensures Reached(s, Next(s, cfg, PutPhoto(h, keys[i], true)), h, f, Writing(status, keys[..i + 1], 0), s.media + {keys[i]})
  {
    assert keys[..i + 1] == keys[..i] + [keys[i]];
  }

  lemma PutFails(s: System, cfg: Config, h: nat, f: Form, status: Status, keys: seq<Key>, i: nat)
    requires i < |keys| == f.photos && keys[i] !in s.owner
    requires h in s.handlers && s.handlers[h] == Handler(f, Writing(status, keys[..i], 0))
    ensures Reached(s, RunFrom(s, cfg, [PutPhoto(h, keys[i], false)]), h, f, Settle(Failed, keys[..i]),
                    s.media + set k | k in keys[i..i])
  {
    RunOne(s, cfg, PutPhoto(h, keys[i], false));
    assert keys[i..i] == [];
  }

  lemma NextUndrawn(s: System, cfg: Config, h: nat, keys: seq<Key>, i: nat)
    requires i < |keys| && Undrawn(s, keys[i..]) && Enabled(s, PutPhoto(h, keys[i], true))
    ensures Undrawn(Next(s, cfg, PutPhoto(h, keys[i], true)), keys[i + 1..])
  {
    assert keys[i..] == [keys[i]] + keys[i + 1..];
    forall k | k in keys[i + 1..]
      ensures k in keys[i..] && k != keys[i]
    {
      var j :| 0 <= j < |keys[i + 1..]| && keys[i + 1..][j] == k;
      assert keys[i..][j + 1] == k && keys[i..][0] == keys[i];
    }
  }

  // The clean-up of what was written, one file at a time.
  lemma {:induction false} CleanAlone(s: System, cfg: Config, h: nat, f: Form, reply: Reply, left: seq<Key>, oks: seq<bool>)
    returns (steps: seq<Step>)
    requires |left| <= |oks| && h in s.handlers && s.handlers[h] == Handler(f, Settle(reply, left))
    ensures OnlyOf(steps, h)
    ensures Reached(s, RunFrom(s, cfg, steps), h, f, Replied(reply), s.media - Deleted(left, oks))
    decreases |left|
  {
    if left == [] {
      steps := [];
    } else {
      var step := CleanOne(h, oks[0]);
      var rest := CleanAlone(Next(s, cfg, step), cfg, h, f, reply, left[1..], oks[1..]);
      RunFirst(s, cfg, step, rest);
      steps := [step] + rest;
      DeletedFirst(left, oks);
    }
  }

  lemma DeletedFirst(left: seq<Key>, oks: seq<bool>)
    requires 0 < |left| <= |oks|
    ensures Deleted(left, oks) == (if oks[0] then {left[0]} else {}) + Deleted(left[1..], oks[1..])
  {
    forall k | k in Deleted(left, oks) && !(oks[0] && k == left[0])
      ensures k in Deleted(left[1..], oks[1..])
    {
      var i :| 0 <= i < |left| && oks[i] && left[i] == k;
      assert left[1..][i - 1] == k && oks[1..][i - 1];
    }
    forall k | k in Deleted(left[1..], oks[1..])
      ensures k in Deleted(left, oks)
    {
      var i :| 0 <= i < |left[1..]| && oks[1..][i] && left[1..][i] == k;
      assert left[i + 1] == k && oks[i + 1];
    }
  }

  // A photo fails: what was written before it is cleaned up.
  lemma PutsFailAlone(s: System, cfg: Config, h: nat, f: Form, status: Status, keys: seq<Key>, w: World)
    returns (steps: seq<Step>)
    requires Fits(w, f, keys) && Undrawn(s, keys) && FirstFalse(w.puts) < |keys|
    requires h in s.handlers && s.handlers[h] == Handler(f, Writing(status, [], 0))
    ensures OnlyOf(steps, h)
    ensures var written := keys[..FirstFalse(w.puts)];
            Reached(s, RunFrom(s, cfg, steps), h, f, Replied(Failed),
                    s.media + (set k | k in written) - Deleted(written, w.deletes))
  {
    var n := FirstFalse(w.puts);
    assert keys[..0] == [] && keys[0..] == keys && keys[0..n] == keys[..n];
    var puts := PutAlone(s, cfg, h, f, status, keys, 0, w.puts);
    var cleans := CleanAlone(RunFrom(s, cfg, puts), cfg, h, f, Failed, keys[..n], w.deletes);
    RunBoth(s, cfg, puts, cleans);
    steps := puts + cleans;
  }

  // All photos are written; one insert is tried.
  lemma InsertAlone(s: System, cfg: Config, h: nat, f: Form, status: Status, keys: seq<Key>, id: nat, w: World)
    returns (steps: seq<Step>)
    requires Fits(w, f, keys) && Undrawn(s, keys) && FirstFalse(w.puts) == |keys|
    requires h in s.handlers && s.handlers[h] == Handler(f, Writing(status, [], 0))
    requires forall c :: c in s.claims ==> c.id != id
    ensures OnlyOf(steps, h)
    ensures var written := s.media + set k | k in keys;
            exists s1 :: Reached(s, s1, h, f, Writing(status, keys, 0), written)
                         && RunFrom(s, cfg, steps) == Next(s1, cfg, InsertClaim(h, id, w.now, w.createdAt, w.inserts[0]))
  {
    assert keys[..0] == [] && keys[0..] == keys && keys[0..|keys|] == keys;
    var puts := PutAlone(s, cfg, h, f, status, keys, 0, w.puts);
    var insert := InsertClaim(h, id, w.now, w.createdAt, w.inserts[0]);
    RunOne(RunFrom(s, cfg, puts), cfg, insert);
    RunBoth(s, cfg, puts, [insert]);
    steps := puts + [insert];
  }

  lemma InsertWins(s: System, s1: System, cfg: Config, h: nat, f: Form, status: Status, keys: seq<Key>, id: nat, w: World)
    requires Fits(w, f, keys) && w.inserts[0] && !Taken(s.claims, f) && forall c :: c in s.claims ==> c.id != id
    requires Reached(s, s1, h, f, Writing(status, keys, 0), s.media + set k | k in keys)
    ensures var s2 := Next(s1, cfg, InsertClaim(h, id, w.now, w.createdAt, true));
            DeskOf(s2) == Inserted(Written(DeskOf(s), keys), f, status, keys, id, w.now + cfg.retention, w.createdAt)
            && s2.handlers == s.handlers[h := Handler(f, Replied(Created(id)))]
  {
  }

  lemma InsertFails(s: System, s1: System, cfg: Config, h: nat, f: Form, status: Status, keys: seq<Key>, id: nat, w: World)
    requires Fits(w, f, keys) && forall c :: c in s.claims ==> c.id != id
    requires Reached(s, s1, h, f, Writing(status, keys, 0), s.media + set k | k in keys)
    ensures Reached(s, Next(s1, cfg, InsertClaim(h, id, w.now, w.createdAt, false)), h, f, Settle(Failed, keys),
                    s.media + set k | k in keys)
  {
  }

  // The three ways the handler's second half can end when the key is free.
  lemma StoreCases(d: Desk, cfg: Config, f: Form, status: Status, keys: seq<Key>, id: nat, w: World)
    requires Fits(w, f, keys) && !Taken(d.claims, f)
    ensures var n := FirstFalse(w.puts);
            StoreAlone(d, cfg, f, status, keys, id, w) ==
            if n < |keys| then (Cleaned(Written(d, keys[..n]), keys[..n], w.deletes), Failed)
            else if w.inserts[0]
            then (Inserted(Written(d, keys), f, status, keys, id, w.now + cfg.retention, w.createdAt), Created(id))
            else (Cleaned(Written(d, keys), keys, w.deletes), Failed)
  {
    FullyWritten(w.puts, keys);
  }

  // Photos, insert and clean-up, with a free key.
  lemma StoreFreeAlone(s: System, cfg: Config, h: nat, f: Form, status: Status, keys: seq<Key>, id: nat, w: World)
    returns (steps: seq<Step>)
    requires Fits(w, f, keys) && Undrawn(s, keys) && !Taken(s.claims, f) && forall c :: c in s.claims ==> c.id != id
    requires h in s.handlers && s.handlers[h] == Handler(f, Writing(status, [], 0))
    ensures OnlyOf(steps, h)
    ensures var (d, reply) := StoreAlone(DeskOf(s), cfg, f, status, keys, id, w);
            var s' := RunFrom(s, cfg, steps);
            DeskOf(s') == d && s'.handlers == s.handlers[h := Handler(f, Replied(reply))]
  {
    StoreCases(DeskOf(s), cfg, f, status, keys, id, w);
    if FirstFalse(w.puts) < |keys| {
      steps := PutsFailAlone(s, cfg, h, f, status, keys, w);
    } else {
      var first := InsertAlone(s, cfg, h, f, status, keys, id, w);
      var s1 :| Reached(s, s1, h, f, Writing(status, keys, 0), s.media + set k | k in keys)
                && RunFrom(s, cfg, first) == Next(s1, cfg, InsertClaim(h, id, w.now, w.createdAt, w.inserts[0]));
      if w.inserts[0] {
        InsertWins(s, s1, cfg, h, f, status, keys, id, w);
        steps := first;
      } else {
        InsertFails(s, s1, cfg, h, f, status, keys, id, w);
        var cleans := CleanAlone(RunFrom(s, cfg, first), cfg, h, f, Failed, keys, w.deletes);
        RunBoth(s, cfg, first, cleans);
        steps := first + cleans;
      }
    }
  }

  // ----- the key was taken in the meantime -----

  // Where one try to insert and to read the winner leads.
  ghost function TriedOnce(claims: set<ClaimRec>, f: Form, status: Status, keys: seq<Key>, attempt: nat, w: World): Stage
    requires |w.inserts| == |w.winner| == 2 && attempt < 2 && Taken(claims, f)
  {
    if !w.inserts[attempt] || w.winner[attempt].ReadFailed? then Settle(Failed, keys)
    else if w.winner[attempt].Seen? then Settle(Existing(Holder(claims, f).id), keys)
    else if attempt == 0 then Writing(status, keys, 1)
    else Settle(Failed, keys)
  }

  lemma TryOnce(s: System, cfg: Config, h: nat, f: Form, status: Status, keys: seq<Key>, attempt: nat, id: nat, w: World)
    returns (steps: seq<Step>)
    requires Fits(w, f, keys) && attempt < 2 && Taken(s.claims, f) && forall c :: c in s.claims ==> c.id != id
    requires h in s.handlers && s.handlers[h] == Handler(f, Writing(status, keys, attempt))
    ensures OnlyOf(steps, h)
    ensures Reached(s, RunFrom(s, cfg, steps), h, f, TriedOnce(s.claims, f, status, keys, attempt, w), s.media)
  {
    var insert := InsertClaim(h, id, w.now, w.createdAt, w.inserts[attempt]);
    if !w.inserts[attempt] {
      RunOne(s, cfg, insert);
      steps := [insert];
    } else {
      var read := ReadWinner(h, w.winner[attempt].Seen?, !w.winner[attempt].ReadFailed?);
      RunOne(Next(s, cfg, insert), cfg, read);
      RunFirst(s, cfg, insert, [read]);
      steps := [insert] + [read];
    }
  }

  // The answer to a submission whose key is taken when it comes to insert.
  ghost function LostReply(claims: set<ClaimRec>, f: Form, w: World): Reply
    requires |w.inserts| == |w.winner| == 2 && Taken(claims, f)
  {
    if w.inserts[0] && (w.winner[0].Seen? || (w.winner[0].Unseen? && w.inserts[1] && w.winner[1].Seen?))
    then Existing(Holder(claims, f).id) else Failed
  }

  // At most two tries.
  lemma LoseAlone(s: System, cfg: Config, h: nat, f: Form, status: Status, keys: seq<Key>, id: nat, w: World)
    returns (steps: seq<Step>)
    requires Fits(w, f, keys) && Taken(s.claims, f) && forall c :: c in s.claims ==> c.id != id
    requires h in s.handlers && s.handlers[h] == Handler(f, Writing(status, keys, 0))
    ensures OnlyOf(steps, h)
    ensures Reached(s, RunFrom(s, cfg, steps), h, f, Settle(LostReply(s.claims, f, w), keys), s.media)
  {
    steps := TryOnce(s, cfg, h, f, status, keys, 0, id, w);
    if w.inserts[0] && w.winner[0].Unseen? {
      var again := TryOnce(RunFrom(s, cfg, steps), cfg, h, f, status, keys, 1, id, w);
      RunBoth(s, cfg, steps, again);
      steps := steps + again;
    }
  }

  lemma StoreTakenCases(d: Desk, cfg: Config, f: Form, status: Status, keys: seq<Key>, id: nat, w: World)
    requires Fits(w, f, keys) && Taken(d.claims, f)
    ensures var n := FirstFalse(w.puts);
            StoreAlone(d, cfg, f, status, keys, id, w) ==
            if n < |keys| then (Cleaned(Written(d, keys[..n]), keys[..n], w.deletes), Failed)
            else (Cleaned(Written(d, keys), keys, w.deletes), LostReply(d.claims, f, w))
  {
    FullyWritten(w.puts, keys);
  }

  lemma StoreTakenAlone(s: System, cfg: Config, h: nat, f: Form, status: Status, keys: seq<Key>, id: nat, w: World)
    returns (steps: seq<Step>)
    requires Fits(w, f, keys) && Undrawn(s, keys) && Taken(s.claims, f) && forall c :: c in s.claims ==> c.id != id
    requires h in s.handlers && s.handlers[h] == Handler(f, Writing(status, [], 0))
    ensures OnlyOf(steps, h)
    ensures var (d, reply) := StoreAlone(DeskOf(s), cfg, f, status, keys, id, w);
            var s' := RunFrom(s, cfg, steps);
            DeskOf(s') == d && s'.handlers == s.handlers[h := Handler(f, Replied(reply))]
  {
    StoreTakenCases(DeskOf(s), cfg, f, status, keys, id, w);
    if FirstFalse(w.puts) < |keys| {
      steps := PutsFailAlone(s, cfg, h, f, status, keys, w);
    } else {
      steps := PutsAndLose(s, cfg, h, f, status, keys, id, w);
    }
  }

  lemma PutsAndLose(s: System, cfg: Config, h: nat, f: Form, status: Status, keys: seq<Key>, id: nat, w: World)
    returns (steps: seq<Step>)
    requires Fits(w, f, keys) && Undrawn(s, keys) && FirstFalse(w.puts) == |keys|
    requires Taken(s.claims, f) && forall c :: c in s.claims ==> c.id != id
    requires h in s.handlers && s.handlers[h] == Handler(f, Writing(status, [], 0))
    ensures OnlyOf(steps, h)
    ensures Reached(s, RunFrom(s, cfg, steps), h, f, Replied(LostReply(s.claims, f, w)),
                    s.media + (set k | k in keys) - Deleted(keys, w.deletes))
  {
    assert keys[..0] == [] && keys[0..] == keys && keys[0..|keys|] == keys;
    var puts := PutAlone(s, cfg, h, f, status, keys, 0, w.puts);
    var s1 := RunFrom(s, cfg, puts);
    var lost := LoseAlone(s1, cfg, h, f, status, keys, id, w);
    var cleans := CleanAlone(RunFrom(s1, cfg, lost), cfg, h, f, LostReply(s.claims, f, w), keys, w.deletes);
    RunBoth(s1, cfg, lost, cleans);
    RunBoth(s, cfg, puts, lost + cleans);
    steps := puts + (lost + cleans);
  }

  /** From any state, whether or not another submission has stored the key since the risk check: the
      steps of one submission from there on, run with nothing in between, leave claims, rows, files,
      create events and answer as the second half of the handler does - the second try after a lost
      insert included. */
  lemma StoreStepsAlone(s: System, cfg: Config, h: nat, f: Form, status: Status, keys: seq<Key>, id: nat, w: World)
    returns (steps: seq<Step>)
    requires Fits(w, f, keys) && Undrawn(s, keys) && forall c :: c in s.claims ==> c.id != id
    requires h in s.handlers && s.handlers[h] == Handler(f, Writing(status, [], 0))
    ensures OnlyOf(steps, h)
    ensures var (d, reply) := StoreAlone(DeskOf(s), cfg, f, status, keys, id, w);
            var s' := RunFrom(s, cfg, steps);
            DeskOf(s') == d && s'.handlers == s.handlers[h := Handler(f, Replied(reply))]
  {
    if Taken(s.claims, f) {
      steps := StoreTakenAlone(s, cfg, h, f, status, keys, id, w);
    } else {
      steps := StoreFreeAlone(s, cfg, h, f, status, keys, id, w);
    }
  }

  // The handler from the risk read on.
  ghost function AssessAlone(d: Desk, cfg: Config, f: Form, keys: seq<Key>, id: nat, w: World): (Desk, Reply)
    requires Fits(w, f, keys)
  {
    var risk := RiskAt(d.claims, f, w.facts, w.riskNow, cfg.policy);
    if !w.riskOk then (d, Failed)
    else if risk.rejectDuplicate then (d, Duplicate)
    else StoreAlone(d, cfg, f, risk.status, keys, id, w)
  }

  lemma FromChecked(s: System, cfg: Config, h: nat, f: Form, keys: seq<Key>, id: nat, w: World) returns (steps: seq<Step>)
    requires Fits(w, f, keys) && Undrawn(s, keys) && !Taken(s.claims, f) && forall c :: c in s.claims ==> c.id != id
    requires h in s.handlers && s.handlers[h] == Handler(f, Checked)
    ensures OnlyOf(steps, h)
    ensures var (d, reply) := AssessAlone(DeskOf(s), cfg, f, keys, id, w);
            var s' := RunFrom(s, cfg, steps);
            DeskOf(s') == d && s'.handlers == s.handlers[h := Handler(f, Replied(reply))]
  {
    var assess := AssessRisk(h, w.facts, w.riskNow, w.riskOk);
    var risk := RiskAt(s.claims, f, w.facts, w.riskNow, cfg.policy);
    if !w.riskOk || risk.rejectDuplicate {
      RunOne(s, cfg, assess);
      steps := [assess];
    } else {
      var rest := StoreStepsAlone(Next(s, cfg, assess), cfg, h, f, risk.status, keys, id, w);
      RunFirst(s, cfg, assess, rest);
      steps := [assess] + rest;
    }
  }

  lemma FromStarted(s: System, cfg: Config, h: nat, f: Form, keys: seq<Key>, id: nat, w: World) returns (steps: seq<Step>)
    requires Fits(w, f, keys) && Undrawn(s, keys) && forall c :: c in s.claims ==> c.id != id
    requires h in s.handlers && s.handlers[h] == Handler(f, Started)
    ensures OnlyOf(steps, h)
    ensures var (d, reply) := if !w.lookupOk then (DeskOf(s), Failed)
                              else if Taken(s.claims, f) then (DeskOf(s), Existing(Holder(s.claims, f).id))
                              else AssessAlone(DeskOf(s), cfg, f, keys, id, w);
            var s' := RunFrom(s, cfg, steps);
            DeskOf(s') == d && s'.handlers == s.handlers[h := Handler(f, Replied(reply))]
  {
    var lookup := LookupKey(h, w.lookupOk);
    if !w.lookupOk || Taken(s.claims, f) {
      RunOne(s, cfg, lookup);
      steps := [lookup];
    } else {
      var rest := FromChecked(Next(s, cfg, lookup), cfg, h, f, keys, id, w);
      RunFirst(s, cfg, lookup, rest);
      steps := [lookup] + rest;
    }
  }

  /** From any state, the steps of one new submission run with nothing in between leave claims,
      rows, files, create events and answer exactly as the handler does. */
  lemma UninterruptedIsAlone(s: System, cfg: Config, h: nat, f: Form, keys: seq<Key>, id: nat, w: World)
    returns (steps: seq<Step>)
    requires Fits(w, f, keys) && Undrawn(s, keys) && h !in s.handlers && forall c :: c in s.claims ==> c.id != id
    ensures OnlyOf(steps, h)
    ensures var (d, reply) := HandleAlone(DeskOf(s), cfg, f, keys, id, w);
            var s' := RunFrom(s, cfg, steps);
            DeskOf(s') == d && s'.handlers == s.handlers[h := Handler(f, Replied(reply))]
  {
    var submit := Submit(h, f, w.gate);
    if GateReply(f, w.gate, cfg.policy).Some? {
      RunOne(s, cfg, submit);
      steps := [submit];
    } else {
      var rest := FromStarted(Next(s, cfg, submit), cfg, h, f, keys, id, w);
      RunFirst(s, cfg, submit, rest);
      steps := [submit] + rest;
    }
  }

  // ----- the purge -----

  function KeysOf(batch: seq<Expired>): (keys: seq<Key>)
    ensures |keys| == |batch|
  {
    if batch == [] then [] else [batch[0].key] + KeysOf(batch[1..])
  }

  function Left(batch: seq<Expired>): Purge {
    if batch == [] then Idle else Purging(KeysOf(batch), false)
  }

  // One photo of the batch: its file, then its row.
  lemma PurgeOne(s: System, cfg: Config, batch: seq<Expired>)
    requires batch != [] && s.purge == Left(batch)
    ensures var p := batch[0];
            var s' := RunFrom(s, cfg, [PurgeFile(p.fileOk), PurgeRow(p.rowOk)]);
            var media := if p.fileOk then s.media - {p.key} else s.media;
            && DeskOf(s') == Desk(s.claims, if p.rowOk then s.rows - {p.key} else s.rows, media, s.created)
            && s'.handlers == s.handlers && s'.purge == (if p.rowOk then Left(batch[1..]) else Idle)
  {
    var file, row := PurgeFile(batch[0].fileOk), PurgeRow(batch[0].rowOk);
    FileGoes(s, cfg, batch);
    RunOne(Next(s, cfg, file), cfg, row);
    RunFirst(s, cfg, file, [row]);
    Pair(file, row);
    assert KeysOf(batch)[1..] == KeysOf(batch[1..]);
  }

  lemma FileGoes(s: System, cfg: Config, batch: seq<Expired>)
    requires batch != [] && s.purge == Left(batch)
    ensures var p, s' := batch[0], Next(s, cfg, PurgeFile(batch[0].fileOk));
            && DeskOf(s') == DeskOf(s).(media := if p.fileOk then s.media - {p.key} else s.media)
            && s'.handlers == s.handlers && s'.purge == Purging(KeysOf(batch), true)
  {
  }

  /** From any state in which a batch is about to be purged, the purge's steps run with nothing in
      between do what the worker's loop does. */
  lemma {:induction false} PurgeStepsAlone(s: System, cfg: Config, batch: seq<Expired>) returns (steps: seq<Step>)
    requires s.purge == Left(batch)
    ensures var s' := RunFrom(s, cfg, steps);
            DeskOf(s') == PurgeAlone(DeskOf(s), batch) && s'.handlers == s.handlers && s'.purge == Idle
    decreases |batch|
  {
    if batch == [] {
      steps := [];
    } else {
      var p := batch[0];
      var one := [PurgeFile(p.fileOk), PurgeRow(p.rowOk)];
      PurgeOne(s, cfg, batch);
      if p.rowOk {
        var rest := PurgeStepsAlone(RunFrom(s, cfg, one), cfg, batch[1..]);
        RunBoth(s, cfg, one, rest);
        steps := one + rest;
      } else {
        steps := one;
      }
    }
  }
}
