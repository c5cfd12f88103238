/** Accounts and the login lock (internal/store/user.go), for one request at a time. */
module Login {
  import opened Common
  import opened Calendar

  const MAX_LOGIN_FAILURES := 5
  const LOCK_DURATION := 15 * 60 * SECOND

  const MIN_PASSWORD_CHARS := 8
  const MAX_PASSWORD_BYTES := 72

  datatype User = User(id: string, storeId: string, active: bool, failed: int, lockedUntil: Option<int>)

  // Accounts by e-mail, which is unique.
  type Table = map<string, User>

  datatype Outcome = LoggedIn(id: string) | NotFound | Locked | LastAccount | BadPassword | DbError | Done

  /** `matches` is the verdict of the password comparison, `now` and `later` are the clock at the
      lock check and when a failure is recorded; `writeOk` tells whether the update gets through.
      `chars` and `bytes` are the two lengths of a new password. */
  datatype Request =
    | Attempt(email: string, matches: bool, now: int, later: int, writeOk: bool)
    | Reset(email: string, chars: nat, bytes: nat)
    | SetActive(storeId: string, userId: string, active: bool)

  predicate IsLocked(u: User, now: int) {
    u.lockedUntil.Some? && u.lockedUntil.value > now
  }

  // The attempt gets as far as comparing passwords.
  predicate Compares(t: Table, r: Request) {
    r.Attempt? && r.email in t && !IsLocked(t[r.email], r.now) && t[r.email].active
  }

  function Failed(u: User, count: int, later: int): User {
    u.(failed := count, lockedUntil := if count >= MAX_LOGIN_FAILURES then Some(later + LOCK_DURATION) else None)
  }

  function Cleared(u: User): User {
    u.(failed := 0, lockedUntil := None)
  }

  function AttemptAnswer(t: Table, r: Request): (Table, Outcome)
    requires r.Attempt?
  {
    if r.email !in t then (t, NotFound)
    else
      var u := t[r.email];
      if IsLocked(u, r.now) then (t, Locked)
      else if !u.active then (t, NotFound)
      else if !r.matches then
        if r.writeOk then (t[r.email := Failed(u, u.failed + 1, r.later)], NotFound) else (t, DbError)
      else if u.failed > 0 then
        if r.writeOk then (t[r.email := Cleared(u)], LoggedIn(u.id)) else (t, DbError)
      else (t, LoggedIn(u.id))
  }

  predicate OtherActive(t: Table, storeId: string, userId: string) {
    exists e :: e in t && t[e].storeId == storeId && t[e].active && t[e].id != userId
  }

  function Switched(t: Table, storeId: string, userId: string, active: bool): Table {
    map e | e in t :: if t[e].id == userId && t[e].storeId == storeId then t[e].(active := active) else t[e]
  }

  predicate HasAccount(t: Table, storeId: string, userId: string) {
    exists e :: e in t && t[e].id == userId && t[e].storeId == storeId
  }

  function Answer(t: Table, r: Request): (Table, Outcome) {
    match r
    case Attempt(_, _, _, _, _) => AttemptAnswer(t, r)
    case Reset(email, chars, bytes) =>
      if chars < MIN_PASSWORD_CHARS || bytes > MAX_PASSWORD_BYTES then (t, BadPassword)
      else if email in t then (t[email := Cleared(t[email])], Done)
      else (t, NotFound)
    case SetActive(storeId, userId, active) =>
      if !active && !OtherActive(t, storeId, userId) then (t, LastAccount)
      else (Switched(t, storeId, userId, active), if HasAccount(t, storeId, userId) then Done else NotFound)
  }

  class Users {
    var rows: Table

    constructor ()
      ensures rows == map[]
    {
      rows := map[];
    }

    method RecordLoginFailure(email: string, count: int, later: int, writeOk: bool) returns (ok: bool)
      requires email in rows
      modifies this
      ensures ok == writeOk
      ensures rows == if writeOk then old(rows)[email := Failed(old(rows)[email], count, later)] else old(rows)
    {
      var lockedUntil := None;
      if count >= MAX_LOGIN_FAILURES {
        lockedUntil := Some(later + LOCK_DURATION);
      }
      if writeOk {
        rows := rows[email := rows[email].(failed := count, lockedUntil := lockedUntil)];
      }
      return writeOk;
    }

    method Authenticate(email: string, matches: bool, now: int, later: int, writeOk: bool) returns (o: Outcome)
      modifies this
      ensures (rows, o) == AttemptAnswer(old(rows), Attempt(email, matches, now, later, writeOk))
    {
      if email !in rows {
        return NotFound;
      }
      var u := rows[email];
      if u.lockedUntil.Some? && u.lockedUntil.value > now {
        return Locked;
      }
      if !u.active {
        return NotFound;
      }
      if !matches {
        var ok := RecordLoginFailure(email, u.failed + 1, later, writeOk);
        return if ok then NotFound else DbError;
      }
      if u.failed > 0 {
        if !writeOk {
          return DbError;
        }
        rows := rows[email := u.(failed := 0, lockedUntil := None)];
      }
      return LoggedIn(u.id);
    }

    method SetPassword(email: string, chars: nat, bytes: nat) returns (o: Outcome)
      modifies this
      ensures (rows, o) == Answer(old(rows), Reset(email, chars, bytes))
    {
      if chars < MIN_PASSWORD_CHARS {
        return BadPassword;
      }
      if bytes > MAX_PASSWORD_BYTES {
        return BadPassword;
      }
      if email !in rows {
        return NotFound;
      }
      rows := rows[email := rows[email].(failed := 0, lockedUntil := None)];
      return Done;
    }

    method SetUserActive(storeId: string, userId: string, active: bool) returns (o: Outcome)
      modifies this
      ensures (rows, o) == Answer(old(rows), SetActive(storeId, userId, active))
    {
      if !active {
        var remaining := set e | e in rows && rows[e].storeId == storeId && rows[e].active && rows[e].id != userId;
        assert forall e :: e in remaining <==>
                 e in rows && rows[e].storeId == storeId && rows[e].active && rows[e].id != userId;
        if remaining == {} {
          return LastAccount;
        }
      }
      var affected := HasAccount(rows, storeId, userId);
      rows := Switched(rows, storeId, userId, active);
      return if affected then Done else NotFound;
    }
  }

  // ----- what one request is told and does -----

  /** Who is let in and why not: the e-mail is known, no lock runs at `now`, the account is active,
      the password is right, and a count of earlier failures could be cleared. An unknown e-mail,
      an account switched off and a recorded wrong password are told the same. */
  lemma AttemptOutcome(t: Table, r: Request, x: string)
    requires r.Attempt?
    ensures var o, known := Answer(t, r).1, r.email in t;
            var locked := known && t[r.email].lockedUntil.Some? && r.now < t[r.email].lockedUntil.value;
            var open := known && !locked && t[r.email].active;
            && (o == LoggedIn(x) <==> open && r.matches && (t[r.email].failed <= 0 || r.writeOk) && x == t[r.email].id)
            && (o == Locked <==> locked)
            && (o == NotFound <==> !known || (!locked && !open) || (open && !r.matches && r.writeOk))
            && (o == DbError <==> open && !r.writeOk && (r.matches ==> t[r.email].failed > 0))
  {
  }

  /** An attempt touches no account but its own, and of that only the count and the lock. They
      change exactly after an answered comparison: a wrong password counts up, a right one clears. */
  lemma AttemptEffect(t: Table, r: Request, e: string)
    requires r.Attempt? && e in t
    ensures var t' := Answer(t, r).0;
            && t'.Keys == t.Keys
            && (e != r.email || !Compares(t, r) || !r.writeOk ==> t'[e] == t[e])
            && (Miss(t, r, e) && r.writeOk ==>
                  t'[e].failed == t[e].failed + 1
                  && t'[e].lockedUntil == if t[e].failed >= 4 then Some(r.later + 900 * SECOND) else None)
            && (Restart(t, r, e) && t[e].failed > 0 ==> t'[e].failed == 0 && t'[e].lockedUntil.None?)
            && (t'[e].id, t'[e].storeId, t'[e].active) == (t[e].id, t[e].storeId, t[e].active)
  {
  }

  /** A new password is taken exactly if it has 8 characters, at most 72 bytes, and an account;
      whoever knows it is then let in at once, whatever lock was running. */
  lemma ResetUnlocks(t: Table, email: string, chars: nat, bytes: nat, r: Request)
    requires r.Attempt? && r.email == email && r.matches
    ensures var (t', o) := Answer(t, Reset(email, chars, bytes));
            && (o == Done <==> email in t && 8 <= chars && bytes <= 72)
            && (o != Done ==> t' == t && (o == NotFound <==> 8 <= chars && bytes <= 72))
            && (o == Done ==> t'.Keys == t.Keys && forall e :: e in t && e != email ==> t'[e] == t[e])
            && (o == Done ==> Answer(t', r).1 == if t[email].active then LoggedIn(t[email].id) else NotFound)
  {
  }

  /** Switching off is refused exactly if it would leave the store without an active account; a
      switch taken sets that account of that store and no other, and an account switched off is
      never let in. */
  lemma SwitchOutcome(t: Table, storeId: string, userId: string, active: bool, r: Request)
    ensures var (t', o) := Answer(t, SetActive(storeId, userId, active));
            && (o == LastAccount <==>
                  !active && forall e :: e in t && t[e].storeId == storeId && t[e].active ==> t[e].id == userId)
            && (o == LastAccount ==> t' == t)
            && (o == NotFound ==> t' == t && forall e :: e in t && t[e].id == userId ==> t[e].storeId != storeId)
            && (o == LastAccount || o == NotFound || o == Done)
            && t'.Keys == t.Keys
            && (forall e :: e in t ==>
                  t'[e] == if o == Done && t[e].id == userId && t[e].storeId == storeId then t[e].(active := active) else t[e])
            && (o == Done && !active && r.Attempt? && r.email in t
                && t[r.email].id == userId && t[r.email].storeId == storeId ==>
                  !Answer(t', r).1.LoggedIn?)
  {
    var (t', o) := Answer(t, SetActive(storeId, userId, active));
    if o == NotFound {
      assert forall e :: e in t ==> t'[e] == t[e];
      assert t' == t;
    }
  }

  // ----- runs -----

  function Run(t: Table, rs: seq<Request>): Table {
    if rs == [] then t else Answer(Run(t, rs[..|rs| - 1]), rs[|rs| - 1]).0
  }

  // A wrong password was compared.
  predicate Miss(t: Table, r: Request, email: string) {
    Compares(t, r) && r.email == email && !r.matches
  }

  // The account's count starts over: a right password or a reset.
  predicate Restart(t: Table, r: Request, email: string) {
    (Compares(t, r) && r.email == email && r.matches && (r.writeOk || t[email].failed <= 0))
    || (r.Reset? && r.email == email && r.chars >= MIN_PASSWORD_CHARS && r.bytes <= MAX_PASSWORD_BYTES)
  }

  // The misses since the last restart, how many of them could be recorded, when the first of
  // them began, and when the last recorded one was recorded.
  datatype Streak = Streak(count: nat, recorded: nat, start: int, last: int)

  const NO_STREAK := Streak(0, 0, 0, 0)

  function Missed(s: Streak, r: Request): Streak
    requires r.Attempt?
  {
    Streak(s.count + 1, s.recorded + (if r.writeOk then 1 else 0), if s.count == 0 then r.now else s.start,
           if r.writeOk then r.later else s.last)
  }

  function StreakAfter(t: Table, rs: seq<Request>, email: string): Streak {
    if rs == [] then NO_STREAK
    else
      var before, r := rs[..|rs| - 1], rs[|rs| - 1];
      var s := StreakAfter(t, before, email);
      if Miss(Run(t, before), r, email) then Missed(s, r)
      else if Restart(Run(t, before), r, email) then NO_STREAK
      else s
  }

  // The clock moves forward within each attempt and from each to the next.
  ghost predicate Serial(rs: seq<Request>) {
    && (forall i :: 0 <= i < |rs| && rs[i].Attempt? ==> rs[i].now <= rs[i].later)
    && (forall i, j :: 0 <= i < j < |rs| && rs[i].Attempt? && rs[j].Attempt? ==> rs[i].later <= rs[j].now)
  }

  ghost predicate CountsNatural(t: Table) {
    forall e :: e in t ==> t[e].failed >= 0
  }

  // The stored count is at least the recorded misses, and from the fifth of them on the lock
  // keeps pace.
  ghost predicate LockInv(t: Table, email: string, s: Streak) {
    s.recorded <= s.count
    && (s.recorded > 0 ==>
          && email in t && t[email].failed >= s.recorded
          && (s.recorded >= MAX_LOGIN_FAILURES ==>
                t[email].lockedUntil.Some?
                && t[email].lockedUntil.value >= s.start + (s.recorded - MAX_LOGIN_FAILURES + 1) * LOCK_DURATION))
  }

  lemma {:induction false} StartedBefore(t: Table, rs: seq<Request>, email: string, now: int)
    requires forall i :: 0 <= i < |rs| && rs[i].Attempt? ==> rs[i].now <= now
    ensures StreakAfter(t, rs, email).count > 0 ==> StreakAfter(t, rs, email).start <= now
  {
    if rs != [] {
      StartedBefore(t, rs[..|rs| - 1], email, now);
    }
  }

  lemma AnswerKeepsLock(t: Table, r: Request, email: string, s: Streak)
    requires CountsNatural(t) && LockInv(t, email, s) && (r.Attempt? ==> r.now <= r.later)
    requires s.count > 0 && r.Attempt? ==> s.start <= r.now
    ensures CountsNatural(Answer(t, r).0)
    ensures Miss(t, r, email) ==> LockInv(Answer(t, r).0, email, Missed(s, r))
    ensures !Miss(t, r, email) && !Restart(t, r, email) ==> LockInv(Answer(t, r).0, email, s)
  {
    if Miss(t, r, email) {
      assert !IsLocked(t[email], r.now);
    }
  }

  lemma {:induction false} RunKeepsLock(t: Table, rs: seq<Request>, email: string)
    requires CountsNatural(t) && Serial(rs)
    ensures CountsNatural(Run(t, rs)) && LockInv(Run(t, rs), email, StreakAfter(t, rs, email))
  {
    if rs != [] {
      var before, r := rs[..|rs| - 1], rs[|rs| - 1];
      RunKeepsLock(t, before, email);
      if r.Attempt? {
        assert forall i :: 0 <= i < |before| && before[i].Attempt? ==> before[i].later <= r.now;
        StartedBefore(t, before, email, r.now);
      }
      AnswerKeepsLock(Run(t, before), r, email, StreakAfter(t, before, email));
    }
  }

  lemma MissIsLate(t: Table, r: Request, email: string, s: Streak)
    requires LockInv(t, email, s) && Miss(t, r, email) && (s.count > 0 ==> s.start <= r.now)
    ensures r.now - Missed(s, r).start >= (s.recorded + 1 - MAX_LOGIN_FAILURES) * LOCK_DURATION
  {
  }

  /** A wrong comparison that follows n recorded ones of its streak comes at least (n - 4) * 15
      minutes after the streak began, however the attempts are timed. */
  lemma {:induction false} RecordedMissesAreSlow(t: Table, rs: seq<Request>, r: Request, email: string)
    requires CountsNatural(t) && Serial(rs + [r]) && Miss(Run(t, rs), r, email)
    ensures var s := StreakAfter(t, rs, email);
            r.now - Missed(s, r).start >= (s.recorded + 1 - MAX_LOGIN_FAILURES) * LOCK_DURATION
  {
    var all := rs + [r];
    assert forall i :: 0 <= i < |rs| ==> all[i] == rs[i];
    assert all[|rs|] == r;
    RunKeepsLock(t, rs, email);
    StartedBefore(t, rs, email, r.now);
    MissIsLate(Run(t, rs), r, email, StreakAfter(t, rs, email));
  }

  /** Guessing is slow while failures can be recorded: when the database took every earlier failure
      of the streak, the k-th wrong comparison in a row comes at least (k - 5) * 15 minutes after
      the first. */
  lemma {:induction false} GuessingIsSlow(t: Table, rs: seq<Request>, r: Request, email: string)
    requires CountsNatural(t) && Serial(rs + [r]) && Miss(Run(t, rs), r, email)
    requires StreakAfter(t, rs, email).recorded == StreakAfter(t, rs, email).count
    ensures var s := StreakAfter(t, rs + [r], email);
            s.count >= 1 && r.now - s.start >= (s.count - MAX_LOGIN_FAILURES) * LOCK_DURATION
  {
    var s := StreakAfter(t, rs, email);
    RecordedMissesAreSlow(t, rs, r, email);
    StreakSnoc(t, rs, r, email);
    AllRecorded(s, r);
  }

  lemma AllRecorded(s: Streak, r: Request)
    requires r.Attempt? && s.recorded == s.count
    requires r.now - Missed(s, r).start >= (s.recorded + 1 - MAX_LOGIN_FAILURES) * LOCK_DURATION
    ensures var m := Missed(s, r);
            m.count >= 1 && r.now - m.start >= (m.count - MAX_LOGIN_FAILURES) * LOCK_DURATION
  {
    SameBound(s.recorded + 1, Missed(s, r).count);
  }

  lemma SameBound(k: int, n: int)
    requires k == n
    ensures (k - MAX_LOGIN_FAILURES) * LOCK_DURATION == (n - MAX_LOGIN_FAILURES) * LOCK_DURATION
  {
  }

  lemma {:induction false} RunSnoc(t: Table, rs: seq<Request>, r: Request)
    ensures Run(t, rs + [r]) == Answer(Run(t, rs), r).0
  {
    assert (rs + [r])[..|rs|] == rs;
  }

  lemma {:induction false} StreakSnoc(t: Table, rs: seq<Request>, r: Request, email: string)
    requires Miss(Run(t, rs), r, email)
    ensures StreakAfter(t, rs + [r], email) == Missed(StreakAfter(t, rs, email), r)
  {
    assert (rs + [r])[..|rs|] == rs;
  }

  // The same wrong password n times at one instant, while no failure can be recorded.
  function Unrecorded(email: string, now: int, n: nat): seq<Request> {
    if n == 0 then [] else Unrecorded(email, now, n - 1) + [Attempt(email, false, now, now, false)]
  }

  lemma {:induction false} UnrecordedIsSerial(email: string, now: int, n: nat)
    ensures Serial(Unrecorded(email, now, n))
    ensures forall i :: 0 <= i < |Unrecorded(email, now, n)| ==>
              Unrecorded(email, now, n)[i] == Attempt(email, false, now, now, false)
  {
    if n > 0 {
      UnrecordedIsSerial(email, now, n - 1);
    }
  }

  /** The proviso is needed: while the database refuses to record failures, any number of wrong
      comparisons can follow each other at one instant. */
  lemma {:induction false} UnrecordedIsInstant(t: Table, email: string, now: int, n: nat)
    requires email in t && t[email].active && !IsLocked(t[email], now)
    ensures Run(t, Unrecorded(email, now, n)) == t
    ensures StreakAfter(t, Unrecorded(email, now, n), email) == Streak(n, 0, if n == 0 then 0 else now, 0)
  {
    if n > 0 {
      var before, r := Unrecorded(email, now, n - 1), Attempt(email, false, now, now, false);
      UnrecordedIsInstant(t, email, now, n - 1);
      RunSnoc(t, before, r);
      StreakSnoc(t, before, r, email);
    }
  }

  /** The bound is met: five wrong comparisons can come at once, and each further one as soon as
      the lock before it runs out. */
  lemma {:induction false} BoundIsMet(t: Table, rs: seq<Request>, email: string, r: Request)
    requires Miss(Run(t, rs), r, email) && r.writeOk && StreakAfter(t, rs, email).recorded + 1 >= MAX_LOGIN_FAILURES
    requires Run(t, rs)[email].failed == StreakAfter(t, rs, email).recorded
    ensures var next := Attempt(email, false, r.later + LOCK_DURATION, r.later + LOCK_DURATION, true);
            Miss(Run(t, rs + [r]), next, email)
            && forall m: Request :: m.Attempt? && m.email == email && m.now < next.now ==> !Compares(Run(t, rs + [r]), m)
  {
    assert (rs + [r])[..|rs|] == rs;
  }

  // ----- who is let in, over runs -----

  ghost predicate SameAccounts(t: Table, t': Table) {
    t'.Keys == t.Keys && forall e :: e in t ==> t'[e].id == t[e].id && t'[e].storeId == t[e].storeId
  }

  lemma AnswerKeepsAccounts(t: Table, r: Request)
    ensures SameAccounts(t, Answer(t, r).0)
  {
  }

  lemma {:induction false} RunKeepsAccounts(t: Table, rs: seq<Request>)
    ensures SameAccounts(t, Run(t, rs))
  {
    if rs != [] {
      RunKeepsAccounts(t, rs[..|rs| - 1]);
      AnswerKeepsAccounts(Run(t, rs[..|rs| - 1]), rs[|rs| - 1]);
    }
  }

  /** In every run, whoever is let in gave the e-mail of the account they are taken for, with the
      right password. */
  lemma {:induction false} OnlyRightPasswordsOpen(t: Table, rs: seq<Request>, i: nat, x: string)
    requires i < |rs| && Answer(Run(t, rs[..i]), rs[i]).1 == LoggedIn(x)
    ensures rs[i].Attempt? && rs[i].matches && rs[i].email in t && t[rs[i].email].id == x
  {
    var before := rs[..i];
    RunKeepsAccounts(t, before);
    LetInMeans(Run(t, before), rs[i], x);
  }

  lemma LetInMeans(t: Table, r: Request, x: string)
    requires Answer(t, r).1 == LoggedIn(x)
    ensures r.Attempt? && r.matches && r.email in t && t[r.email].id == x
  {
  }

  /** While the lock of a streak runs, every attempt on the account is told so, a right password
      included. */
  lemma {:induction false} LockHolds(t: Table, rs: seq<Request>, email: string, r: Request)
    requires CountsNatural(t) && Serial(rs) && r.Attempt? && r.email == email
    requires StreakAfter(t, rs, email).recorded >= MAX_LOGIN_FAILURES
    requires var s := StreakAfter(t, rs, email);
             r.now < s.start + (s.recorded - MAX_LOGIN_FAILURES + 1) * LOCK_DURATION
    ensures Answer(Run(t, rs), r).1 == Locked
  {
    RunKeepsLock(t, rs, email);
    LockedBy(Run(t, rs), email, StreakAfter(t, rs, email), r);
  }

  lemma LockedBy(t: Table, email: string, s: Streak, r: Request)
    requires LockInv(t, email, s) && r.Attempt? && r.email == email && s.recorded >= MAX_LOGIN_FAILURES
    requires r.now < s.start + (s.recorded - MAX_LOGIN_FAILURES + 1) * LOCK_DURATION
    ensures Answer(t, r).1 == Locked
  {
  }

  ghost predicate NoFailures(t: Table) {
    forall e :: e in t ==> t[e].failed == 0 && t[e].lockedUntil.None?
  }

  // Count and lock of an account are those of its streak.
  ghost predicate Tallies(t: Table, email: string, s: Streak) {
    email in t && t[email].failed == s.recorded
    && t[email].lockedUntil == if s.recorded >= MAX_LOGIN_FAILURES then Some(s.last + LOCK_DURATION) else None
  }

  lemma AnswerTallies(t: Table, r: Request, email: string, s: Streak)
    requires Tallies(t, email, s)
    ensures Miss(t, r, email) ==> Tallies(Answer(t, r).0, email, Missed(s, r))
    ensures Restart(t, r, email) ==> Tallies(Answer(t, r).0, email, NO_STREAK)
    ensures !Miss(t, r, email) && !Restart(t, r, email) ==> Tallies(Answer(t, r).0, email, s)
  {
  }

  lemma {:induction false} RunTallies(t: Table, rs: seq<Request>, email: string)
    requires NoFailures(t) && email in t
    ensures Tallies(Run(t, rs), email, StreakAfter(t, rs, email))
  {
    if rs != [] {
      RunTallies(t, rs[..|rs| - 1], email);
      AnswerTallies(Run(t, rs[..|rs| - 1]), rs[|rs| - 1], email, StreakAfter(t, rs[..|rs| - 1], email));
    }
  }

  /** From a table without failures, over every run: an attempt is let in exactly if its account
      exists and is switched on, the password is right, fewer than five wrong ones were recorded
      since the last right one or reset or a quarter of an hour has passed since the last of them,
      and any recorded could be cleared. */
  lemma {:induction false} LetInExactly(t: Table, rs: seq<Request>, r: Request)
    requires NoFailures(t) && r.Attempt?
    ensures var s := StreakAfter(t, rs, r.email);
            (exists x :: Answer(Run(t, rs), r).1 == LoggedIn(x)) <==>
            r.email in t && r.email in Run(t, rs) && Run(t, rs)[r.email].active && r.matches
            && (s.recorded < MAX_LOGIN_FAILURES || r.now >= s.last + LOCK_DURATION)
            && (s.recorded == 0 || r.writeOk)
  {
    RunKeepsAccounts(t, rs);
    if r.email in t {
      RunTallies(t, rs, r.email);
      AttemptOutcome(Run(t, rs), r, Run(t, rs)[r.email].id);
    }
  }

  // ----- the last account -----

  ghost predicate SomeActive(t: Table, storeId: string) {
    exists e :: e in t && t[e].storeId == storeId && t[e].active
  }

  lemma AnswerKeepsActive(t: Table, r: Request, storeId: string)
    requires SomeActive(t, storeId)
    ensures SomeActive(Answer(t, r).0, storeId)
  {
    var t' := Answer(t, r).0;
    var e :| e in t && t[e].storeId == storeId && t[e].active;
    if r.SetActive? && !r.active && r.storeId == storeId && OtherActive(t, storeId, r.userId) {
      var o :| o in t && t[o].storeId == storeId && t[o].active && t[o].id != r.userId;
      assert o in t' && t'[o] == t[o];
    } else {
      assert e in t' && t'[e].storeId == storeId && t'[e].active;
    }
  }

  /** One request at a time, a store that has an active account always keeps one. */
  lemma {:induction false} SomeoneCanLogIn(t: Table, rs: seq<Request>, storeId: string)
    requires SomeActive(t, storeId)
    ensures SomeActive(Run(t, rs), storeId)
  {
    if rs != [] {
      SomeoneCanLogIn(t, rs[..|rs| - 1], storeId);
      AnswerKeepsActive(Run(t, rs[..|rs| - 1]), rs[|rs| - 1], storeId);
    }
  }
}
