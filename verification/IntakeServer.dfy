/** The intake handler and the photo purge run without interruption, as the loops the source
    writes. Outcomes of media, cache and database calls are arguments: `false` means that call
    reported an error. */
module IntakeServer {
  import opened Common
  import opened ClaimDomain
  import opened Risk
  import opened Intake
  import opened Sequences

  // What reading back the winner of a lost insert gives.
  datatype Read = Seen | Unseen | ReadFailed

  // What the outside world answers to one submission: the media store photo by photo, the two
  // attempts to insert and to read the winner, and the two clocks.
  datatype World = World(gate: Gate, lookupOk: bool, riskOk: bool, facts: Facts, riskNow: int, puts: seq<bool>,
                         inserts: seq<bool>, winner: seq<Read>, now: int, createdAt: int, deletes: seq<bool>)

  predicate Fits(w: World, f: Form, keys: seq<Key>) {
    |w.puts| == |w.deletes| == |keys| == f.photos && |w.inserts| == |w.winner| == 2
  }

  datatype Desk = Desk(claims: set<ClaimRec>, rows: map<Key, PhotoRow>, media: set<Key>, created: seq<nat>)

  // How many calls succeed before the first that fails.
  function FirstFalse(oks: seq<bool>): (n: nat)
    ensures n <= |oks| && (forall i :: 0 <= i < n ==> oks[i]) && (n < |oks| ==> !oks[n])
  {
    if oks == [] || !oks[0] then 0 else 1 + FirstFalse(oks[1..])
  }

  lemma {:induction false} FirstFalseAt(oks: seq<bool>, n: nat)
    requires n <= |oks| && (forall i :: 0 <= i < n ==> oks[i]) && (n < |oks| ==> !oks[n])
    ensures FirstFalse(oks) == n
  {
    if n > 0 {
      FirstFalseAt(oks[1..], n - 1);
    }
  }

  // The keys whose deletion succeeded.
  function Deleted(keys: seq<Key>, oks: seq<bool>): set<Key>
    requires |keys| <= |oks|
  {
    set i | 0 <= i < |keys| && oks[i] :: keys[i]
  }

  function Written(d: Desk, keys: seq<Key>): Desk {
    d.(media := d.media + set k | k in keys)
  }

  function Cleaned(d: Desk, keys: seq<Key>, oks: seq<bool>): Desk
    requires |keys| <= |oks|
  {
    d.(media := d.media - Deleted(keys, oks))
  }

  // The claim, its photo rows and its create event, in one transaction.
  function Inserted(d: Desk, f: Form, status: Status, keys: seq<Key>, id: nat, expiresAt: int, createdAt: int): Desk {
    Desk(d.claims + {NewClaim(f, status, keys, id, expiresAt, createdAt)}, d.rows + NewRows(id, keys, expiresAt),
         d.media, d.created + [id])
  }

  datatype Insertion = Stored(id: nat) | Winner(id: nat) | NotStored

  ghost function CreateAlone(d: Desk, f: Form, status: Status, keys: seq<Key>, id: nat, expiresAt: int, w: World)
    : (Desk, Insertion)
    requires |w.inserts| == |w.winner| == 2
  {
    if !w.inserts[0] then (d, NotStored)
    else if !Taken(d.claims, f) then (Inserted(d, f, status, keys, id, expiresAt, w.createdAt), Stored(id))
    else if w.winner[0].Seen? || (w.winner[0].Unseen? && w.inserts[1] && w.winner[1].Seen?)
    then (d, Winner(Holder(d.claims, f).id))
    else (d, NotStored)
  }

  ghost function StoreAlone(d: Desk, cfg: Config, f: Form, status: Status, keys: seq<Key>, id: nat, w: World)
    : (Desk, Reply)
    requires Fits(w, f, keys)
  {
    var written := keys[..FirstFalse(w.puts)];
    var d1 := Written(d, written);
    if written != keys then (Cleaned(d1, written, w.deletes), Failed)
    else
      var (d2, res) := CreateAlone(d1, f, status, keys, id, w.now + cfg.retention, w);
      match res
      case Stored(i) => (d2, Created(i))
      case Winner(i) => (Cleaned(d2, keys, w.deletes), Existing(i))
      case NotStored => (Cleaned(d2, keys, w.deletes), Failed)
  }

  // One submission from start to finish.
  ghost function HandleAlone(d: Desk, cfg: Config, f: Form, keys: seq<Key>, id: nat, w: World): (Desk, Reply)
    requires Fits(w, f, keys)
  {
    var turned := GateReply(f, w.gate, cfg.policy);
    if turned.Some? then (d, turned.value)
    else if !w.lookupOk then (d, Failed)
    else if Taken(d.claims, f) then (d, Existing(Holder(d.claims, f).id))
    else if !w.riskOk then (d, Failed)
    else
      var risk := RiskAt(d.claims, f, w.facts, w.riskNow, cfg.policy);
      if risk.rejectDuplicate then (d, Duplicate) else StoreAlone(d, cfg, f, risk.status, keys, id, w)
  }

  // Two claims cannot share a key, so the holder of one is determined.
  lemma HolderIs(claims: set<ClaimRec>, f: Form, c: ClaimRec)
    requires UniqueClaims(claims) && c in claims && SameKey(c, f)
    ensures Holder(claims, f) == c
  {
  }

  // An expired photo row, and whether its file and its row can be deleted.
  datatype Expired = Expired(key: Key, fileOk: bool, rowOk: bool)

  // One after the other: a file that stays still loses its row, a row that stays ends the batch.
  function PurgeAlone(d: Desk, batch: seq<Expired>): Desk
    decreases |batch|
  {
    if batch == [] then d
    else
      var p := batch[0];
      var d1 := if p.fileOk then d.(media := d.media - {p.key}) else d;
      if !p.rowOk then d1 else PurgeAlone(d1.(rows := d1.rows - {p.key}), batch[1..])
  }

  function Keys(batch: seq<Expired>): set<Key> {
    set p | p in batch :: p.key
  }

  // The keys whose file can be deleted.
  function Files(batch: seq<Expired>): set<Key> {
    set p | p in batch && p.fileOk :: p.key
  }

  lemma KeysFirst(p: Expired, rest: seq<Expired>)
    ensures Keys([p] + rest) == {p.key} + Keys(rest)
    ensures Files([p] + rest) == (if p.fileOk then {p.key} else {}) + Files(rest)
  {
    var all := [p] + rest;
    assert p in all && forall q :: q in rest ==> q in all;
  }

  // How many rows go before the first that cannot.
  function Purgeable(batch: seq<Expired>): (n: nat)
    ensures n <= |batch| && (forall i :: 0 <= i < n ==> batch[i].rowOk) && (n < |batch| ==> !batch[n].rowOk)
  {
    if batch == [] || !batch[0].rowOk then 0 else 1 + Purgeable(batch[1..])
  }

  // The photos whose files are tried: those whose row goes and the one whose row does not.
  function Tried(batch: seq<Expired>): seq<Expired> {
    if Purgeable(batch) < |batch| then batch[..Purgeable(batch) + 1] else batch
  }

  lemma FirstTried(batch: seq<Expired>)
    requires batch != []
    ensures var p, rest := batch[0], batch[1..];
            if p.rowOk then batch[..Purgeable(batch)] == [p] + rest[..Purgeable(rest)] && Tried(batch) == [p] + Tried(rest)
            else batch[..Purgeable(batch)] == [] && Tried(batch) == [p] + []
  {
    var n := Purgeable(batch);
    if batch[0].rowOk {
      PrefixFirst(batch, n);
      if n < |batch| {
        PrefixFirst(batch, n + 1);
      } else {
        SplitFirst(batch);
      }
    } else {
      PrefixFirst(batch, 1);
    }
  }

  /** The purge takes the rows up to the first that cannot go, and tries the files of those and of
      that one; nothing else is touched. */
  lemma {:induction false} PurgeTakes(d: Desk, batch: seq<Expired>)
    ensures PurgeAlone(d, batch)
            == Desk(d.claims, d.rows - Keys(batch[..Purgeable(batch)]), d.media - Files(Tried(batch)), d.created)
    decreases |batch|
  {
    if batch != [] {
      var p, rest := batch[0], batch[1..];
      FirstTried(batch);
      if p.rowOk {
        PurgeTakes(Desk(d.claims, d.rows - {p.key}, if p.fileOk then d.media - {p.key} else d.media, d.created), rest);
        KeysFirst(p, rest[..Purgeable(rest)]);
        KeysFirst(p, Tried(rest));
      } else {
        KeysFirst(p, []);
      }
    }
  }

  class Server {
    var claims: set<ClaimRec>
    var rows: map<Key, PhotoRow>
    var media: set<Key>
    var created: seq<nat>

    constructor ()
      ensures Value() == Desk({}, map[], {}, [])
    {
      claims, rows, media, created := {}, map[], {}, [];
    }

    function Value(): Desk
      reads this
    {
      Desk(claims, rows, media, created)
    }

    // Stops at the first photo that cannot be stored and returns what was written before it.
    method WritePhotos(keys: seq<Key>, puts: seq<bool>) returns (written: seq<Key>, ok: bool)
      requires |puts| == |keys|
      modifies this`media
      ensures written == keys[..FirstFalse(puts)] && Value() == old(Written(Value(), written))
      ensures ok <==> FirstFalse(puts) == |puts|
    {
      written := [];
      var i := 0;
      while i < |keys|
        invariant 0 <= i <= |keys| && written == keys[..i]
        invariant forall j :: 0 <= j < i ==> puts[j]
        invariant media == old(media) + (set k | k in written)
      {
        if !puts[i] {
          FirstFalseAt(puts, i);
          return written, false;
        }
        media := media + {keys[i]};
        written := written + [keys[i]];
        i := i + 1;
      }
      FirstFalseAt(puts, i);
      return written, true;
    }

    // Tries every key; a failed deletion is logged and skipped.
    method CleanupPhotos(keys: seq<Key>, deletes: seq<bool>)
      requires |keys| <= |deletes|
      modifies this`media
      ensures Value() == old(Cleaned(Value(), keys, deletes))
    {
      var i := 0;
      while i < |keys|
        invariant 0 <= i <= |keys|
        invariant media == old(media) - Deleted(keys[..i], deletes)
      {
        assert Deleted(keys[..i + 1], deletes) == Deleted(keys[..i], deletes) + if deletes[i] then {keys[i]} else {};
        if deletes[i] {
          media := media - {keys[i]};
        }
        i := i + 1;
      }
      assert keys[..i] == keys;
    }

    // Insert-if-absent; a lost insert reads the winner, and is tried once more if that is not
    // visible yet.
    method CreateClaim(f: Form, status: Status, keys: seq<Key>, id: nat, expiresAt: int, w: World) returns (res: Insertion)
      requires |w.inserts| == |w.winner| == 2 && UniqueClaims(claims)
      modifies this`claims, this`rows, this`created
      ensures (Value(), res) == old(CreateAlone(Value(), f, status, keys, id, expiresAt, w))
    {
      var attempt := 0;
      while attempt < 2
        invariant 0 <= attempt <= 2 && Value() == old(Value())
        invariant attempt > 0 ==> w.inserts[0] && Taken(claims, f) && w.winner[0].Unseen?
        invariant attempt > 1 ==> w.inserts[1] && w.winner[1].Unseen?
      {
        if !w.inserts[attempt] {
          return NotStored;
        }
        if !Taken(claims, f) {
          claims := claims + {NewClaim(f, status, keys, id, expiresAt, w.createdAt)};
          rows := rows + NewRows(id, keys, expiresAt);
          created := created + [id];
          return Stored(id);
        }
        match w.winner[attempt] {
          case ReadFailed => return NotStored;
          case Seen =>
            var c :| c in claims && SameKey(c, f);
            HolderIs(claims, f, c);
            return Winner(c.id);
          case Unseen =>
        }
        attempt := attempt + 1;
      }
      return NotStored;
    }

    // Everything after the risk check, from whatever state other submissions have left behind.
    method StoreSubmission(cfg: Config, f: Form, status: Status, keys: seq<Key>, id: nat, w: World) returns (reply: Reply)
      requires Fits(w, f, keys) && UniqueClaims(claims)
      modifies this
      ensures (Value(), reply) == old(StoreAlone(Value(), cfg, f, status, keys, id, w))
    {
      var written, ok := WritePhotos(keys, w.puts);
      if !ok {
        CleanupPhotos(written, w.deletes);
        return Failed;
      }
      assert written == keys;
      var res := CreateClaim(f, status, written, id, w.now + cfg.retention, w);
      match res {
        case Stored(i) => return Created(i);
        case Winner(i) =>
          CleanupPhotos(written, w.deletes);
          return Existing(i);
        case NotStored =>
          CleanupPhotos(written, w.deletes);
          return Failed;
      }
    }

    method HandleCreateClaim(cfg: Config, f: Form, keys: seq<Key>, id: nat, w: World) returns (reply: Reply)
      requires Fits(w, f, keys) && UniqueClaims(claims)
      modifies this
      ensures (Value(), reply) == old(HandleAlone(Value(), cfg, f, keys, id, w))
    {
      if !ValidAmount(f.amountKrw, cfg.policy) {
        return Refused;
      }
      match w.gate.machine {
        case MachineUnknown => return NoMachine;
        case MachineFailed => return Failed;
        case MachineFound =>
      }
      if !w.gate.issueOk {
        return Refused;
      }
      if RequiresPhoto(f.amountKrw, cfg.policy) && f.photos == 0 {
        return Refused;
      }
      if w.gate.count.Some? && w.gate.count.value > MACHINE_CLAIMS_PER_HOUR {
        return Limited;
      }
      if !w.lookupOk {
        return Failed;
      }
      if Taken(claims, f) {
        var c :| c in claims && SameKey(c, f);
        HolderIs(claims, f, c);
        return Existing(c.id);
      }
      if !w.riskOk {
        return Failed;
      }
      var facts := RiskFactsFor(f, w.facts, w.riskNow);
      var risk := RunEvaluate(RULES, facts, cfg.policy);
      if risk.rejectDuplicate {
        return Duplicate;
      }
      reply := StoreSubmission(cfg, f, risk.status, keys, id, w);
    }

    // The two facts that come from the claims table.
    method RiskFactsFor(f: Form, other: Facts, now: int) returns (facts: Facts)
      ensures facts == FactsAt(claims, f, other, now)
    {
      var recent := set c | c in claims && c.phone == f.phone && c.createdAt >= now - WINDOW_30D;
      var last := None;
      if exists c :: c in claims && SamePlace(c, f) {
        LatestExists(claims, f);
        var c :| c in claims && SamePlace(c, f) && forall e :: e in claims && SamePlace(e, f) ==> e.createdAt <= c.createdAt;
        last := Some(c.createdAt);
      }
      LastIs(claims, f, last);
      facts := other.(amountKrw := f.amountKrw, phoneClaims30d := |recent| + 1, lastSameMachineAt := last, now := now);
    }

    method PurgeExpiredPhotos(batch: seq<Expired>) returns (deleted: nat, ok: bool)
      modifies this`rows, this`media
      ensures Value() == old(PurgeAlone(Value(), batch))
      ensures deleted == Purgeable(batch) && (ok <==> deleted == |batch|)
    {
      deleted := 0;
      assert batch[0..] == batch;
      while deleted < |batch|
        invariant deleted <= |batch| && Purgeable(batch) == deleted + Purgeable(batch[deleted..])
        invariant PurgeAlone(Value(), batch[deleted..]) == old(PurgeAlone(Value(), batch))
      {
        var p := batch[deleted];
        assert batch[deleted..][1..] == batch[deleted + 1..];
        if p.fileOk {
          media := media - {p.key};
        }
        if !p.rowOk {
          return deleted, false;
        }
        rows := rows - {p.key};
        deleted := deleted + 1;
      }
      return deleted, true;
    }
  }

  lemma LatestExists(claims: set<ClaimRec>, f: Form)
    requires exists c :: c in claims && SamePlace(c, f)
    ensures exists c :: c in claims && SamePlace(c, f)
                        && forall e :: e in claims && SamePlace(e, f) ==> e.createdAt <= c.createdAt
  {
    var times := set c | c in claims && SamePlace(c, f) :: c.createdAt;
    var first :| first in claims && SamePlace(first, f);
    assert first.createdAt in times;
    var last := LatestOf(times).value;
    var c :| c in claims && SamePlace(c, f) && c.createdAt == last;
    forall e | e in claims && SamePlace(e, f)
      ensures e.createdAt <= c.createdAt
    {
      assert e.createdAt in times;
    }
  }

  lemma LastIs(claims: set<ClaimRec>, f: Form, last: Option<int>)
    requires last.None? <==> forall c :: c in claims ==> !SamePlace(c, f)
    requires last.Some? ==> exists c :: c in claims && SamePlace(c, f) && c.createdAt == last.value
    requires last.Some? ==> forall c :: c in claims && SamePlace(c, f) ==> c.createdAt <= last.value
    ensures LastAt(claims, f) == last
  {
    var times := set c | c in claims && SamePlace(c, f) :: c.createdAt;
    if last.Some? {
      assert last.value in times;
      var m := LatestOf(times).value;
      var c :| c in claims && SamePlace(c, f) && c.createdAt == m;
    }
  }

  // Writing fresh keys and deleting them again leaves only the failed deletions behind.
  lemma CleanedUp(before: set<Key>, keys: seq<Key>, written: seq<Key>, deletes: seq<bool>)
    requires written <= keys && |deletes| == |keys|
    requires forall k :: k in keys ==> k !in before
    ensures before <= before + (set k | k in written) - Deleted(written, deletes)
    ensures before + (set k | k in written) - Deleted(written, deletes)
            <= before + (set i | 0 <= i < |keys| && !deletes[i] :: keys[i])
  {
  }

  // What a submission needs to be created when it runs alone.
  ghost predicate CreatedAlone(d: Desk, cfg: Config, f: Form, w: World) {
    && Acceptable(f, cfg.policy) && w.gate.machine.MachineFound? && w.gate.issueOk
    && (w.gate.count.Some? ==> w.gate.count.value <= MACHINE_CLAIMS_PER_HOUR)
    && w.lookupOk && !Taken(d.claims, f)
    && w.riskOk && !YoungClaim(d.claims, f, w.riskNow, cfg.policy)
    && (forall i :: 0 <= i < |w.puts| ==> w.puts[i]) && |w.inserts| == 2 && w.inserts[0]
  }

  // The whole record and the photo rows of a submission created alone.
  ghost function StoredAlone(d: Desk, cfg: Config, f: Form, keys: seq<Key>, id: nat, w: World): Desk {
    Desk(d.claims + {ClaimRec(id, f.storeId, f.idemKey, f.machine, f.phone, f.amountKrw,
                              StatusFor(d.claims, f, w.facts, w.riskNow, cfg.policy), keys,
                              w.now + cfg.retention, w.createdAt)},
         d.rows + (map k | k in keys :: PhotoRow(id, w.now + cfg.retention)),
         d.media + (set k | k in keys),
         d.created + [id])
  }

  /** A submission that runs alone is created exactly when every check and call succeeds, its key is
      free and no claim of the phone on the machine is too young. It then adds one claim with its
      form and photos and the status its mark, count and amount call for, one create event, and one
      row and one file per photo. Otherwise claims, rows and events are untouched and every file it
      wrote is gone again except those whose deletion failed. */
  lemma AloneOutcome(d: Desk, cfg: Config, f: Form, keys: seq<Key>, id: nat, w: World)
    requires Fits(w, f, keys) && forall k :: k in keys ==> k !in d.media
    ensures var (d', reply) := HandleAlone(d, cfg, f, keys, id, w);
            && (reply.Created? <==> CreatedAlone(d, cfg, f, w))
            && (reply.Created? ==> reply.id == id && d' == StoredAlone(d, cfg, f, keys, id, w))
            && (!reply.Created? ==>
                  d'.claims == d.claims && d'.rows == d.rows && d'.created == d.created
                  && d.media <= d'.media <= d.media + set i | 0 <= i < |keys| && !w.deletes[i] :: keys[i])
  {
    DuplicateIffYoung(d.claims, f, w.facts, w.riskNow, cfg.policy);
    var written := keys[..FirstFalse(w.puts)];
    CleanedUp(d.media, keys, written, w.deletes);
    CleanedUp(d.media, keys, keys, w.deletes);
    FullyWritten(w.puts, keys);
    StatusIsPlain(d.claims, f, w.facts, w.riskNow, cfg.policy);
  }

  /** Every other answer to a submission that runs alone, by plain conditions: those of the gate, the
      receipt of the claim that holds the key, "duplicate" for a free key with a claim too young, and
      failure where a call before the end failed. */
  lemma AloneReplies(d: Desk, cfg: Config, f: Form, keys: seq<Key>, id: nat, w: World, i: nat)
    requires Fits(w, f, keys) && UniqueClaims(d.claims)
    ensures var reply := HandleAlone(d, cfg, f, keys, id, w).1;
            var gate, free := GateReply(f, w.gate, cfg.policy), !Taken(d.claims, f);
            var young := YoungClaim(d.claims, f, w.riskNow, cfg.policy);
            && (reply in {Refused, NoMachine, Limited} ==> gate == Some(reply))
            && (gate.Some? ==> reply == gate.value)
            && (reply == Existing(i) <==> gate.None? && w.lookupOk && exists c :: c in d.claims && SameKey(c, f) && c.id == i)
            && (reply == Duplicate <==> gate.None? && w.lookupOk && free && w.riskOk && young)
            && (gate.None? ==>
                  (reply == Failed <==>
                   !w.lookupOk || (free && (!w.riskOk || (!young && !(w.inserts[0] && forall j :: 0 <= j < |w.puts| ==> w.puts[j]))))))
  {
    var gate := GateReply(f, w.gate, cfg.policy);
    GateAnswers(f, w.gate, cfg.policy);
    if gate.None? && w.lookupOk {
      if Taken(d.claims, f) {
        HeldBy(d.claims, f, i);
      } else if w.riskOk {
        DuplicateIffYoung(d.claims, f, w.facts, w.riskNow, cfg.policy);
        StoreReplies(d, cfg, f, RiskAt(d.claims, f, w.facts, w.riskNow, cfg.policy).status, keys, id, w);
      }
    }
  }

  lemma GateAnswers(f: Form, g: Gate, p: Policy)
    ensures GateReply(f, g, p) in {None, Some(Refused), Some(NoMachine), Some(Failed), Some(Limited)}
  {
  }

  lemma HeldBy(claims: set<ClaimRec>, f: Form, i: nat)
    requires UniqueClaims(claims) && Taken(claims, f)
    ensures Holder(claims, f).id == i <==> exists c :: c in claims && SameKey(c, f) && c.id == i
  {
    if c :| c in claims && SameKey(c, f) && c.id == i {
      HolderIs(claims, f, c);
    }
  }

  lemma StoreReplies(d: Desk, cfg: Config, f: Form, status: Status, keys: seq<Key>, id: nat, w: World)
    requires Fits(w, f, keys) && !Taken(d.claims, f)
    ensures StoreAlone(d, cfg, f, status, keys, id, w).1 ==
            if w.inserts[0] && forall j :: 0 <= j < |w.puts| ==> w.puts[j] then Created(id) else Failed
  {
    FullyWritten(w.puts, keys);
  }

  lemma FullyWritten(puts: seq<bool>, keys: seq<Key>)
    requires |puts| == |keys|
    ensures keys[..FirstFalse(puts)] == keys <==> forall i :: 0 <= i < |puts| ==> puts[i]
  {
    if FirstFalse(puts) == |puts| {
      assert keys[..|keys|] == keys;
    } else {
      assert |keys[..FirstFalse(puts)]| != |keys|;
    }
  }
}
