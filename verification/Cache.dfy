/** The in-memory TTL cache (internal/cache/cache.go) and the fixed-window limiter built on it
    (internal/httpapi/public.go). `now` is the reading of the clock taken inside the lock. */
module Cache {
  import opened Common
  import opened Text

  datatype Entry = Entry(val: string, count: int, expiresAt: int)

  type Data = map<string, Entry>

  const SWEEP_ABOVE := 1000

  predicate Expired(e: Entry, now: int) {
    now > e.expiresAt
  }

  // The entries that have not expired at `now`.
  function Live(d: Data, now: int): Data {
    map k | k in d && !Expired(d[k], now) :: d[k]
  }

  datatype Op =
    | Incr(key: string, ttl: int, now: int)
    | SetNX(key: string, val: string, ttl: int, now: int)
    | Get(key: string, now: int)

  datatype Answer = Count(n: int) | Stored(ok: bool) | Found(val: Option<string>)

  function Put(d: Data, key: string, e: Entry): Data {
    d[key := e]
  }

  function SweepIfLarge(d: Data, now: int): Data {
    if |d| > SWEEP_ABOVE then Live(d, now) else d
  }

  function Apply(d: Data, op: Op): (Data, Answer) {
    match op
    case Incr(key, ttl, now) =>
      if key !in d || Expired(d[key], now) then (Put(d, key, Entry("", 1, now + ttl)), Count(1))
      else (Put(d, key, d[key].(count := d[key].count + 1)), Count(d[key].count + 1))
    case SetNX(key, val, ttl, now) =>
      if key in d && !Expired(d[key], now) then (d, Stored(false))
      else
        (SweepIfLarge(Put(d, key, Entry(val, 0, now + ttl)), now), Stored(true))
    case Get(key, now) =>
      (d, Found(if key !in d || Expired(d[key], now) then None else Some(d[key].val)))
  }

  class Memory {
    var data: Data

    constructor ()
      ensures data == map[]
    {
      data := map[];
    }

    // Deletes every expired entry, in the order the map happens to be walked.
    method Sweep(now: int)
      modifies this
      ensures data == Live(old(data), now)
    {
      var keys := data.Keys;
      while keys != {}
        invariant keys <= old(data).Keys
        invariant data == map k | k in old(data) && (k in keys || !Expired(old(data)[k], now)) :: old(data)[k]
        decreases |keys|
      {
        var k :| k in keys;
        if Expired(data[k], now) {
          data := data - {k};
        }
        keys := keys - {k};
      }
    }

    method Incr(key: string, ttl: int, now: int) returns (n: int)
      modifies this
      ensures (data, Count(n)) == Apply(old(data), Op.Incr(key, ttl, now))
    {
      if key !in data || Expired(data[key], now) {
        data := data[key := Entry("", 1, now + ttl)];
        return 1;
      }
      data := data[key := data[key].(count := data[key].count + 1)];
      return data[key].count;
    }

    method SetNX(key: string, val: string, ttl: int, now: int) returns (ok: bool)
      modifies this
      ensures (data, Stored(ok)) == Apply(old(data), Op.SetNX(key, val, ttl, now))
    {
      if key in data && !Expired(data[key], now) {
        return false;
      }
      data := data[key := Entry(val, 0, now + ttl)];
      if |data| > SWEEP_ABOVE {
        Sweep(now);
      }
      return true;
    }

    method Get(key: string, now: int) returns (val: Option<string>)
      ensures (data, Found(val)) == Apply(data, Op.Get(key, now))
    {
      if key !in data || Expired(data[key], now) {
        return None;
      }
      return Some(data[key].val);
    }
  }

  // ----- the limiter's handler (internal/httpapi/public.go) -----

  const IP_CLAIMS_PER_HOUR := 10
  const IP_WINDOW := 3_600_000_000_000

  function IpKey(ip: string): string {
    "rl:ip:" + ip
  }

  /** Lets a request through unless its address has used up the hour's allowance. A cache that
      cannot answer lets everything through. */
  method RateLimitPublic(m: Memory, ip: string, now: int, cacheOk: bool) returns (admitted: bool)
    modifies m
    ensures m.data == if cacheOk then Apply(old(m.data), Op.Incr(IpKey(ip), IP_WINDOW, now)).0 else old(m.data)
    ensures admitted <==> cacheOk ==> Apply(old(m.data), Op.Incr(IpKey(ip), IP_WINDOW, now)).1.n <= IP_CLAIMS_PER_HOUR
  {
    if !cacheOk {
      return true;
    }
    var n := m.Incr(IpKey(ip), IP_WINDOW, now);
    return n <= IP_CLAIMS_PER_HOUR;
  }

  // What the server's limiters count, and under which key.
  datatype Limiter = Address(ip: string) | MachineClaims(code: string) | StatusChecks(code: string, ip: string) | Signups(ip: string)

  function LimiterKey(l: Limiter): string {
    match l
    case Address(ip) => IpKey(ip)
    case MachineClaims(code) => "rl:machine:" + code
    case StatusChecks(code, ip) => "rl:status:" + code + ":" + ip
    case Signups(ip) => "rl:signup:" + ip
  }

  lemma Unprefix(prefix: string, s: string)
    ensures (prefix + s)[|prefix|..] == s
    ensures forall i :: 0 <= i < |prefix| ==> (prefix + s)[i] == prefix[i]
  {
  }

  lemma KindsDiffer(l: Limiter, m: Limiter)
    requires LimiterKey(l) == LimiterKey(m)
    ensures l.Address? == m.Address? && l.MachineClaims? == m.MachineClaims? && l.Signups? == m.Signups?
  {
    KindOf(l);
    KindOf(m);
  }

  lemma KindOf(l: Limiter)
    ensures var k := LimiterKey(l);
            |k| >= 5 && (l.Address? <==> k[3] == 'i') && (l.MachineClaims? <==> k[3] == 'm')
            && (l.Signups? <==> k[3] == 's' && k[4] == 'i')
  {
    match l
    case Address(ip) => Unprefix("rl:ip:", ip);
    case MachineClaims(code) => Unprefix("rl:machine:", code);
    case StatusChecks(code, ip) => Unprefix("rl:status:", code + ":" + ip); StatusKey(code, ip);
    case Signups(ip) => Unprefix("rl:signup:", ip);
  }

  lemma StatusKey(code: string, ip: string)
    ensures LimiterKey(StatusChecks(code, ip)) == "rl:status:" + (code + ":" + ip)
  {
  }

  /** No two things the limiters count share a key: not two addresses, nor an address and a machine;
      machine codes hold no colon. */
  lemma LimiterKeysDiffer(l: Limiter, m: Limiter)
    requires l.StatusChecks? ==> ':' !in l.code
    requires m.StatusChecks? ==> ':' !in m.code
    ensures LimiterKey(l) == LimiterKey(m) <==> l == m
  {
    if LimiterKey(l) == LimiterKey(m) {
      KindsDiffer(l, m);
      match (l, m)
      case (Address(a), Address(b)) => Unprefix("rl:ip:", a); Unprefix("rl:ip:", b);
      case (MachineClaims(a), MachineClaims(b)) => Unprefix("rl:machine:", a); Unprefix("rl:machine:", b);
      case (Signups(a), Signups(b)) => Unprefix("rl:signup:", a); Unprefix("rl:signup:", b);
      case (StatusChecks(c, a), StatusChecks(d, b)) =>
        StatusKey(c, a);
        StatusKey(d, b);
        Unprefix("rl:status:", c + ":" + a);
        Unprefix("rl:status:", d + ":" + b);
        FirstCut(c, ':', a);
        FirstCut(d, ':', b);
      case _ =>
    }
  }

  // ----- runs -----

  function TimeOf(op: Op): int {
    op.now
  }

  ghost predicate Monotone(ops: seq<Op>) {
    forall i, j :: 0 <= i <= j < |ops| ==> TimeOf(ops[i]) <= TimeOf(ops[j])
  }

  function After(d: Data, ops: seq<Op>): Data {
    if ops == [] then d else Apply(After(d, ops[..|ops| - 1]), ops[|ops| - 1]).0
  }

  // The answer to the i-th operation.
  function AnswerAt(d: Data, ops: seq<Op>, i: nat): Answer
    requires i < |ops|
  {
    Apply(After(d, ops[..i]), ops[i]).1
  }

  // ----- sweeping is invisible -----

  ghost predicate SameFrom(d: Data, e: Data, now: int) {
    Live(d, now) == Live(e, now)
  }

  lemma LiveKeys(d: Data, e: Data, now: int, k: string)
    requires SameFrom(d, e, now)
    ensures (k in d && !Expired(d[k], now)) <==> (k in e && !Expired(e[k], now))
    ensures k in d && !Expired(d[k], now) ==> d[k] == e[k]
  {
    assert k in Live(d, now) <==> k in d && !Expired(d[k], now);
    assert k in Live(e, now) <==> k in e && !Expired(e[k], now);
    assert k in Live(d, now) ==> Live(d, now)[k] == d[k];
    assert k in Live(e, now) ==> Live(e, now)[k] == e[k];
  }

  lemma SameLater(d: Data, e: Data, t: int, now: int)
    requires SameFrom(d, e, t) && t <= now
    ensures SameFrom(d, e, now)
  {
    forall k
      ensures k in Live(d, now) <==> k in Live(e, now)
      ensures k in Live(d, now) ==> Live(d, now)[k] == Live(e, now)[k]
    {
      LiveKeys(d, e, t, k);
    }
  }

  lemma SamePut(d: Data, e: Data, now: int, key: string, v: Entry)
    requires SameFrom(d, e, now)
    ensures SameFrom(Put(d, key, v), Put(e, key, v), now)
  {
    forall k
      ensures k in Live(Put(d, key, v), now) <==> k in Live(Put(e, key, v), now)
      ensures k in Live(Put(d, key, v), now) ==> Live(Put(d, key, v), now)[k] == Live(Put(e, key, v), now)[k]
    {
      LiveKeys(d, e, now, k);
    }
  }

  lemma SweptIsSame(d: Data, now: int)
    ensures SameFrom(Live(d, now), d, now)
    ensures SameFrom(SweepIfLarge(d, now), d, now)
  {
  }

  lemma SamePutAndSweep(d: Data, e: Data, now: int, key: string, v: Entry)
    requires SameFrom(d, e, now)
    ensures SameFrom(SweepIfLarge(Put(d, key, v), now), SweepIfLarge(Put(e, key, v), now), now)
  {
    SamePut(d, e, now, key, v);
    SweptIsSame(Put(d, key, v), now);
    SweptIsSame(Put(e, key, v), now);
  }

  lemma SameStore(d: Data, e: Data, key: string, val: string, ttl: int, now: int)
    requires SameFrom(d, e, now)
    ensures Apply(d, SetNX(key, val, ttl, now)).1 == Apply(e, SetNX(key, val, ttl, now)).1
    ensures SameFrom(Apply(d, SetNX(key, val, ttl, now)).0, Apply(e, SetNX(key, val, ttl, now)).0, now)
  {
    LiveKeys(d, e, now, key);
    if !(key in d && !Expired(d[key], now)) {
      var v := Entry(val, 0, now + ttl);
      SamePutAndSweep(d, e, now, key, v);
      assert Apply(d, SetNX(key, val, ttl, now)).0 == SweepIfLarge(Put(d, key, v), now);
      assert Apply(e, SetNX(key, val, ttl, now)).0 == SweepIfLarge(Put(e, key, v), now);
    }
  }

  lemma SameCount(d: Data, e: Data, key: string, ttl: int, now: int)
    requires SameFrom(d, e, now)
    ensures Apply(d, Incr(key, ttl, now)).1 == Apply(e, Incr(key, ttl, now)).1
    ensures SameFrom(Apply(d, Incr(key, ttl, now)).0, Apply(e, Incr(key, ttl, now)).0, now)
  {
    LiveKeys(d, e, now, key);
    var v := if key !in d || Expired(d[key], now) then Entry("", 1, now + ttl) else d[key].(count := d[key].count + 1);
    SamePut(d, e, now, key, v);
  }

  lemma SameAnswer(d: Data, e: Data, op: Op)
    requires SameFrom(d, e, op.now)
    ensures Apply(d, op).1 == Apply(e, op).1
    ensures SameFrom(Apply(d, op).0, Apply(e, op).0, op.now)
  {
    match op
    case Incr(key, ttl, now) => SameCount(d, e, key, ttl, now);
    case SetNX(key, val, ttl, now) => SameStore(d, e, key, val, ttl, now);
    case Get(key, now) => LiveKeys(d, e, now, key);
  }

  /** With a clock that never goes back, removing expired entries at any moment - in particular
      the sweep inside SetNX, or none at all - changes no later answer. */
  lemma {:induction false} SweepIsInvisible(d: Data, t: int, ops: seq<Op>, i: nat)
    requires Monotone(ops) && i < |ops| && t <= ops[0].now
    ensures AnswerAt(Live(d, t), ops, i) == AnswerAt(d, ops, i)
    ensures SameFrom(After(Live(d, t), ops[..i]), After(d, ops[..i]), ops[i].now)
    decreases i
  {
    if i == 0 {
      SweptIsSame(d, t);
      SameLater(Live(d, t), d, t, ops[0].now);
    } else {
      SweepIsInvisible(d, t, ops, i - 1);
      assert ops[..i][..i - 1] == ops[..i - 1];
      SameAnswer(After(Live(d, t), ops[..i - 1]), After(d, ops[..i - 1]), ops[i - 1]);
      SameLater(After(Live(d, t), ops[..i]), After(d, ops[..i]), ops[i - 1].now, ops[i].now);
    }
    SameAnswer(After(Live(d, t), ops[..i]), After(d, ops[..i]), ops[i]);
  }

  // ----- the limiter -----

  // Every operation on `key` is an increment with the same TTL.
  ghost predicate OnlyCounts(ops: seq<Op>, key: string, ttl: int) {
    ttl >= 0 && forall i :: 0 <= i < |ops| && ops[i].key == key ==> ops[i].Incr? && ops[i].ttl == ttl
  }

  predicate Counts(ops: seq<Op>, key: string, i: int) {
    0 <= i < |ops| && ops[i].Incr? && ops[i].key == key
  }

  // The expiry of the window that the i-th operation was counted in, and its number there.
  function WindowEnd(ops: seq<Op>, i: nat): int
    requires i < |ops| && ops[i].Incr?
  {
    Apply(After(map[], ops[..i]), ops[i]).0[ops[i].key].expiresAt
  }

  function NumberAt(ops: seq<Op>, i: nat): int
    requires i < |ops| && ops[i].Incr?
  {
    AnswerAt(map[], ops, i).n
  }

  predicate Admitted(ops: seq<Op>, key: string, limit: nat, i: int) {
    Counts(ops, key, i) && NumberAt(ops, i) <= limit
  }

  lemma {:induction false} EntriesOpened(ops: seq<Op>, key: string, ttl: int, n: nat)
    requires Monotone(ops) && OnlyCounts(ops, key, ttl) && n <= |ops|
    ensures var d := After(map[], ops[..n]);
            key in d ==> d[key].count >= 1 && n > 0 && d[key].expiresAt <= ops[n - 1].now + ttl
  {
    if n > 0 {
      EntriesOpened(ops, key, ttl, n - 1);
      assert ops[..n][..n - 1] == ops[..n - 1];
      if n > 1 {
        assert TimeOf(ops[n - 2]) <= TimeOf(ops[n - 1]);
      }
    }
  }

  // A counted request lies inside its window.
  lemma InsideWindow(ops: seq<Op>, key: string, ttl: int, i: nat)
    requires Monotone(ops) && OnlyCounts(ops, key, ttl) && Counts(ops, key, i)
    ensures WindowEnd(ops, i) - ttl <= ops[i].now <= WindowEnd(ops, i)
    ensures NumberAt(ops, i) >= 1
  {
    EntriesOpened(ops, key, ttl, i);
    if i > 0 {
      assert TimeOf(ops[i - 1]) <= TimeOf(ops[i]);
    }
  }

  // From a request on, the key's entry is in the same window with at least the same count, or in
  // a window that opened after that one expired, or gone after that expiry.
  ghost predicate Follows(d: Data, key: string, ttl: int, end: int, number: int, now: int) {
    if key in d then (d[key].expiresAt == end && d[key].count >= number) || d[key].expiresAt > end + ttl
    else now > end
  }

  lemma {:induction false} FollowsUntil(ops: seq<Op>, key: string, ttl: int, i: nat, n: nat)
    requires Monotone(ops) && OnlyCounts(ops, key, ttl) && Counts(ops, key, i) && i < n <= |ops|
    ensures Follows(After(map[], ops[..n]), key, ttl, WindowEnd(ops, i), NumberAt(ops, i), ops[n - 1].now)
    decreases n
  {
    assert ops[..n][..n - 1] == ops[..n - 1];
    if n > i + 1 {
      FollowsUntil(ops, key, ttl, i, n - 1);
      assert TimeOf(ops[n - 2]) <= TimeOf(ops[n - 1]);
    }
  }

  /** Requests never extend a window: of two requests on one key, the later is either in the same
      window with a higher number, or in a window that opened after the earlier one had expired. */
  lemma LaterRequest(ops: seq<Op>, key: string, ttl: int, i: nat, j: nat)
    requires Monotone(ops) && OnlyCounts(ops, key, ttl) && Counts(ops, key, i) && Counts(ops, key, j) && i < j
    ensures (WindowEnd(ops, j) == WindowEnd(ops, i) && NumberAt(ops, j) > NumberAt(ops, i))
            || WindowEnd(ops, j) - ttl > WindowEnd(ops, i)
  {
    FollowsUntil(ops, key, ttl, i, j);
    assert TimeOf(ops[j - 1]) <= TimeOf(ops[j]);
    InsideWindow(ops, key, ttl, i);
  }

  // ----- counting admitted requests -----

  ghost function AdmittedIn(ops: seq<Op>, key: string, limit: nat, from: int, to: int): set<int> {
    set i | 0 <= i < |ops| && Admitted(ops, key, limit, i) && from <= ops[i].now <= to
  }

  ghost function InWindow(ops: seq<Op>, s: set<int>, end: int): set<int>
    requires forall i :: i in s ==> 0 <= i < |ops| && ops[i].Incr?
  {
    set i | i in s && WindowEnd(ops, i) == end
  }

  lemma NonEmpty(s: set<int>)
    ensures |s| > 0 ==> exists x :: x in s
  {
    if forall x :: x !in s {
      assert s == {};
    }
  }

  // A set that maps injectively into 1..limit has at most `limit` members.
  lemma {:induction false} Pigeonhole(s: set<int>, f: map<int, int>, limit: nat)
    requires forall i :: i in s ==> i in f && 1 <= f[i] <= limit
    requires forall i, j :: i in s && j in s && i != j ==> f[i] != f[j]
    ensures |s| <= limit
    decreases limit
  {
    if limit == 0 {
      NonEmpty(s);
    } else if i :| i in s && f[i] == limit {
      Pigeonhole(s - {i}, f, limit - 1);
    } else {
      Pigeonhole(s, f, limit - 1);
    }
  }

  /** At most `limit` requests per key are admitted in any one window. */
  lemma WindowLimit(ops: seq<Op>, key: string, ttl: int, limit: nat, s: set<int>, end: int)
    requires Monotone(ops) && OnlyCounts(ops, key, ttl)
    requires forall i :: i in s ==> Admitted(ops, key, limit, i) && WindowEnd(ops, i) == end
    ensures |s| <= limit
  {
    var f := map i | i in s :: NumberAt(ops, i);
    forall i | i in s
      ensures 1 <= f[i] <= limit
    {
      InsideWindow(ops, key, ttl, i);
    }
    forall i, j | i in s && j in s && i != j
      ensures f[i] != f[j]
    {
      LaterRequest(ops, key, ttl, if i < j then i else j, if i < j then j else i);
    }
    Pigeonhole(s, f, limit);
  }

  // The first n operations that were counted in a window of the key.
  ghost function Members(ops: seq<Op>, key: string, n: nat, end: int): set<int>
    requires n <= |ops|
  {
    set j | 0 <= j < n && Counts(ops, key, j) && WindowEnd(ops, j) == end
  }

  lemma NoneInNewWindow(ops: seq<Op>, key: string, ttl: int, i: nat)
    requires Monotone(ops) && OnlyCounts(ops, key, ttl) && Counts(ops, key, i) && NumberAt(ops, i) == 1
    ensures Members(ops, key, i, WindowEnd(ops, i)) == {}
  {
    forall j | 0 <= j < i && Counts(ops, key, j)
      ensures WindowEnd(ops, j) != WindowEnd(ops, i)
    {
      LaterRequest(ops, key, ttl, j, i);
      InsideWindow(ops, key, ttl, j);
    }
  }

  lemma MembersSnoc(ops: seq<Op>, key: string, i: nat, end: int)
    requires i < |ops|
    ensures Members(ops, key, i + 1, end)
            == Members(ops, key, i, end) + if Counts(ops, key, i) && WindowEnd(ops, i) == end then {i} else {}
  {
  }

  // The key's entry counts the members of its window.
  ghost predicate CountsMembers(d: Data, ops: seq<Op>, key: string, n: nat)
    requires n <= |ops|
  {
    key in d ==> d[key].count == |Members(ops, key, n, d[key].expiresAt)|
  }

  lemma OwnCount(ops: seq<Op>, key: string, ttl: int, i: nat)
    requires Monotone(ops) && OnlyCounts(ops, key, ttl) && Counts(ops, key, i)
    requires CountsMembers(After(map[], ops[..i]), ops, key, i)
    ensures CountsMembers(Apply(After(map[], ops[..i]), ops[i]).0, ops, key, i + 1)
  {
    MembersSnoc(ops, key, i, WindowEnd(ops, i));
    if NumberAt(ops, i) == 1 {
      NoneInNewWindow(ops, key, ttl, i);
    }
  }

  lemma OtherCount(d: Data, ops: seq<Op>, key: string, i: nat)
    requires i < |ops| && ops[i].key != key && CountsMembers(d, ops, key, i)
    ensures CountsMembers(Apply(d, ops[i]).0, ops, key, i + 1)
  {
    if key in Apply(d, ops[i]).0 {
      OtherEntry(d, ops[i], key);
      MembersSnoc(ops, key, i, d[key].expiresAt);
    }
  }

  lemma OtherEntry(d: Data, op: Op, key: string)
    requires op.key != key && key in Apply(d, op).0
    ensures key in d && Apply(d, op).0[key] == d[key]
  {
  }

  lemma {:induction false} CountIsMembers(ops: seq<Op>, key: string, ttl: int, n: nat)
    requires Monotone(ops) && OnlyCounts(ops, key, ttl) && n <= |ops|
    ensures CountsMembers(After(map[], ops[..n]), ops, key, n)
  {
    if n > 0 {
      CountIsMembers(ops, key, ttl, n - 1);
      assert ops[..n][..n - 1] == ops[..n - 1];
      if ops[n - 1].key == key {
        OwnCount(ops, key, ttl, n - 1);
      } else {
        OtherCount(After(map[], ops[..n - 1]), ops, key, n - 1);
      }
    }
  }

  /** A request's number counts exactly the requests on its key in its window up to itself, so it is
      admitted exactly if fewer than the limit came before it there; a first one begins its window. */
  lemma AdmittedExactly(ops: seq<Op>, key: string, ttl: int, limit: nat, i: nat)
    requires Monotone(ops) && OnlyCounts(ops, key, ttl) && Counts(ops, key, i)
    ensures NumberAt(ops, i) == |Members(ops, key, i, WindowEnd(ops, i))| + 1
    ensures Admitted(ops, key, limit, i) <==> |Members(ops, key, i, WindowEnd(ops, i))| < limit
    ensures Members(ops, key, i, WindowEnd(ops, i)) == {} ==> WindowEnd(ops, i) == ops[i].now + ttl
  {
    CountIsMembers(ops, key, ttl, i + 1);
    assert ops[..i + 1][..i] == ops[..i];
    MembersSnoc(ops, key, i, WindowEnd(ops, i));
    FirstOpens(ops, key, ttl, i);
  }

  // Requests inside one interval of TTL length belong to at most two windows.
  lemma TwoWindows(ops: seq<Op>, key: string, ttl: int, a: int, i: nat, j: nat, k: nat)
    requires Monotone(ops) && OnlyCounts(ops, key, ttl)
    requires Counts(ops, key, i) && Counts(ops, key, j) && Counts(ops, key, k) && i <= j && i <= k
    requires a <= ops[i].now && ops[j].now <= a + ttl && ops[k].now <= a + ttl
    requires WindowEnd(ops, j) != WindowEnd(ops, i) && WindowEnd(ops, k) != WindowEnd(ops, i)
    ensures WindowEnd(ops, j) == WindowEnd(ops, k)
  {
    InsideWindow(ops, key, ttl, i);
    InsideWindow(ops, key, ttl, j);
    InsideWindow(ops, key, ttl, k);
    LaterRequest(ops, key, ttl, i, j);
    LaterRequest(ops, key, ttl, i, k);
    if j < k {
      LaterRequest(ops, key, ttl, j, k);
    } else if k < j {
      LaterRequest(ops, key, ttl, k, j);
    }
  }

  // Only the request that opens a window is its first.
  lemma FirstOpens(ops: seq<Op>, key: string, ttl: int, i: nat)
    requires Monotone(ops) && OnlyCounts(ops, key, ttl) && Counts(ops, key, i)
    ensures NumberAt(ops, i) == 1 ==> ops[i].now == WindowEnd(ops, i) - ttl
  {
    EntriesOpened(ops, key, ttl, i);
  }

  // A part of a window that misses its opening holds one less.
  lemma LateWindowLimit(ops: seq<Op>, key: string, ttl: int, limit: nat, s: set<int>, end: int)
    requires Monotone(ops) && OnlyCounts(ops, key, ttl) && limit > 0
    requires forall i :: i in s ==> Admitted(ops, key, limit, i) && WindowEnd(ops, i) == end && ops[i].now > end - ttl
    ensures |s| <= limit - 1
  {
    var f := map i | i in s :: NumberAt(ops, i) - 1;
    forall i | i in s
      ensures 1 <= f[i] <= limit - 1
    {
      InsideWindow(ops, key, ttl, i);
      FirstOpens(ops, key, ttl, i);
    }
    forall i, j | i in s && j in s && i != j
      ensures f[i] != f[j]
    {
      LaterRequest(ops, key, ttl, if i < j then i else j, if i < j then j else i);
    }
    Pigeonhole(s, f, limit - 1);
  }

  // When an interval of TTL length reaches into a second window, the first opened before it.
  lemma OpenedBefore(ops: seq<Op>, key: string, ttl: int, a: int, i: nat, j: nat)
    requires Monotone(ops) && OnlyCounts(ops, key, ttl) && Counts(ops, key, i) && Counts(ops, key, j) && i <= j
    requires ops[j].now <= a + ttl && WindowEnd(ops, j) != WindowEnd(ops, i)
    ensures WindowEnd(ops, i) - ttl < a
  {
    LaterRequest(ops, key, ttl, i, j);
    InsideWindow(ops, key, ttl, j);
  }

  // The most that an interval of TTL length can admit.
  function IntervalBound(limit: nat): nat {
    if limit == 0 then 0 else 2 * limit - 1
  }

  /** In any closed interval as long as the TTL, fewer than twice the limit are admitted per key,
      whatever else happens in the cache in between. */
  lemma IntervalLimit(ops: seq<Op>, key: string, ttl: int, limit: nat, a: int)
    requires Monotone(ops) && OnlyCounts(ops, key, ttl)
    ensures |AdmittedIn(ops, key, limit, a, a + ttl)| <= IntervalBound(limit)
  {
    var s := AdmittedIn(ops, key, limit, a, a + ttl);
    if |s| > 0 {
      var i := LeastOf(s);
      InsideWindow(ops, key, ttl, i);
      var first := InWindow(ops, s, WindowEnd(ops, i));
      WindowLimit(ops, key, ttl, limit, first, WindowEnd(ops, i));
      var rest := s - first;
      if rest != {} {
        var j :| j in rest;
        forall k | k in rest
          ensures WindowEnd(ops, k) == WindowEnd(ops, j)
        {
          TwoWindows(ops, key, ttl, a, i, j, k);
        }
        WindowLimit(ops, key, ttl, limit, rest, WindowEnd(ops, j));
        OpenedBefore(ops, key, ttl, a, i, j);
        LateWindowLimit(ops, key, ttl, limit, first, WindowEnd(ops, i));
      }
      assert s == first + rest;
    }
  }

  // One request that opens a window, the rest of its allowance at the last moment, and a whole
  // allowance just after.
  function Burst(key: string, ttl: int, n: nat): seq<Op> {
    seq(2 * n, i => Op.Incr(key, ttl, if i == 0 then 0 else if i < n then ttl else ttl + 1))
  }

  function BurstEntry(ttl: int, n: nat, i: nat): Entry {
    if i <= n then Entry("", i, ttl) else Entry("", i - n, ttl + 1 + ttl)
  }

  lemma BurstStep(key: string, ttl: int, n: nat, i: nat)
    requires ttl >= 1 && i < 2 * n
    ensures Apply(if i == 0 then map[] else map[key := BurstEntry(ttl, n, i)], Burst(key, ttl, n)[i]).0
            == map[key := BurstEntry(ttl, n, i + 1)]
  {
  }

  lemma {:induction false} BurstState(key: string, ttl: int, n: nat, i: nat)
    requires ttl >= 1 && i <= 2 * n
    ensures After(map[], Burst(key, ttl, n)[..i]) == if i == 0 then map[] else map[key := BurstEntry(ttl, n, i)]
  {
    if i > 0 {
      var ops := Burst(key, ttl, n);
      assert ops[..i][..i - 1] == ops[..i - 1];
      BurstState(key, ttl, n, i - 1);
      BurstStep(key, ttl, n, i - 1);
    }
  }

  function Range(a: int, b: int): (s: set<int>)
    requires a <= b
    ensures |s| == b - a && forall i :: i in s <==> a <= i < b
    decreases b - a
  {
    if a == b then {} else Range(a, b - 1) + {b - 1}
  }

  lemma BurstAdmitted(key: string, ttl: int, n: nat, i: nat)
    requires ttl >= 1 && i < 2 * n
    ensures Admitted(Burst(key, ttl, n), key, n, i)
  {
    BurstState(key, ttl, n, i);
  }

  lemma BurstFits(key: string, ttl: int, n: nat)
    requires ttl >= 1
    ensures Monotone(Burst(key, ttl, n)) && OnlyCounts(Burst(key, ttl, n), key, ttl)
  {
  }

  lemma BurstSet(key: string, ttl: int, n: nat)
    requires ttl >= 1 && n > 0
    ensures AdmittedIn(Burst(key, ttl, n), key, n, 1, 1 + ttl) == Range(1, 2 * n)
  {
    var ops := Burst(key, ttl, n);
    forall i
      ensures i in AdmittedIn(ops, key, n, 1, 1 + ttl) <==> i in Range(1, 2 * n)
    {
      if 0 <= i < 2 * n {
        BurstAdmitted(key, ttl, n, i);
        assert ops[i].now == if i == 0 then 0 else if i < n then ttl else ttl + 1;
      }
    }
  }

  /** The bound is reached for every limit and TTL. */
  lemma IntervalLimitIsTight(key: string, ttl: int, limit: nat)
    requires ttl >= 1
    ensures Monotone(Burst(key, ttl, limit)) && OnlyCounts(Burst(key, ttl, limit), key, ttl)
    ensures |AdmittedIn(Burst(key, ttl, limit), key, limit, 1, 1 + ttl)| == IntervalBound(limit)
  {
    BurstFits(key, ttl, limit);
    if limit > 0 {
      BurstSet(key, ttl, limit);
    } else {
      assert Burst(key, ttl, limit) == [];
    }
  }

  lemma {:induction false} LeastOf(s: set<int>) returns (m: int)
    requires |s| > 0
    ensures m in s && forall x :: x in s ==> m <= x
  {
    NonEmpty(s);
    var a :| a in s;
    m := a;
    var rest := s - {a};
    assert forall x :: x in s ==> x == a || x in rest;
    if |rest| > 0 {
      var n := LeastOf(rest);
      if n < a {
        m := n;
      }
    } else {
      assert rest == {};
    }
  }

  // ----- keys do not meet -----

  function Only(ops: seq<Op>, key: string): seq<Op> {
    if ops == [] then []
    else Only(ops[..|ops| - 1], key) + if ops[|ops| - 1].key == key then [ops[|ops| - 1]] else []
  }

  // The key's entry is the same in both, or dead in both.
  ghost predicate SameAt(d: Data, e: Data, key: string, now: int) {
    && (key in d && !Expired(d[key], now) <==> key in e && !Expired(e[key], now))
    && (key in d && !Expired(d[key], now) ==> d[key] == e[key])
  }

  lemma OwnStep(d: Data, e: Data, op: Op)
    requires SameAt(d, e, op.key, op.now)
    ensures Apply(d, op).1 == Apply(e, op).1 && SameAt(Apply(d, op).0, Apply(e, op).0, op.key, op.now)
  {
  }

  lemma OtherStep(d: Data, e: Data, op: Op, key: string)
    requires SameAt(d, e, key, op.now) && op.key != key
    ensures SameAt(Apply(d, op).0, e, key, op.now)
  {
  }

  lemma AfterLast(d: Data, ops: seq<Op>, op: Op)
    ensures After(d, ops + [op]) == Apply(After(d, ops), op).0
  {
    assert (ops + [op])[..|ops|] == ops;
  }

  lemma {:induction false} OnlyOwnCount(ops: seq<Op>, key: string, now: int)
    requires Monotone(ops) && forall i :: 0 <= i < |ops| ==> ops[i].now <= now
    ensures SameAt(After(map[], ops), After(map[], Only(ops, key)), key, now)
  {
    if ops != [] {
      var init, op := ops[..|ops| - 1], ops[|ops| - 1];
      OnlyOwnCount(init, key, op.now);
      if op.key == key {
        OwnStep(After(map[], init), After(map[], Only(init, key)), op);
        AfterLast(map[], Only(init, key), op);
      } else {
        OtherStep(After(map[], init), After(map[], Only(init, key)), op, key);
        assert Only(init, key) + [] == Only(init, key);
      }
    }
  }

  /** What an operation is answered depends on the operations on its own key and on no others,
      sweeps included. */
  lemma OthersDoNotMatter(ops: seq<Op>, op: Op)
    requires Monotone(ops) && forall i :: 0 <= i < |ops| ==> ops[i].now <= op.now
    ensures Apply(After(map[], ops), op).1 == Apply(After(map[], Only(ops, op.key)), op).1
  {
    OnlyOwnCount(ops, op.key, op.now);
    OwnStep(After(map[], ops), After(map[], Only(ops, op.key)), op);
  }

  /** One address files at most nineteen claims within any hour, the limit being ten per window,
      whatever other addresses and limiters do. */
  lemma AddressLimit(ops: seq<Op>, ip: string, a: int)
    requires Monotone(ops)
    requires forall i :: 0 <= i < |ops| && ops[i].key == "rl:ip:" + ip ==> ops[i] == Op.Incr(IpKey(ip), IP_WINDOW, ops[i].now)
    ensures |set i | 0 <= i < |ops| && ops[i].key == "rl:ip:" + ip && NumberAt(ops, i) <= IP_CLAIMS_PER_HOUR
                     && a <= ops[i].now <= a + 3_600_000_000_000| <= 19
  {
    IntervalLimit(ops, IpKey(ip), IP_WINDOW, IP_CLAIMS_PER_HOUR, a);
    assert AdmittedIn(ops, IpKey(ip), IP_CLAIMS_PER_HOUR, a, a + IP_WINDOW)
           == set i | 0 <= i < |ops| && ops[i].key == "rl:ip:" + ip && NumberAt(ops, i) <= IP_CLAIMS_PER_HOUR
                      && a <= ops[i].now <= a + 3_600_000_000_000;
  }

  /** A value stored is found under its key, and only there, until its time runs out; before that it
      cannot be stored again, and afterwards it can. */
  lemma StoredIsFound(d: Data, key: string, val: string, ttl: int, now: int, other: string, later: int, val': string, ttl': int)
    requires ttl >= 0 && now <= later && Apply(d, SetNX(key, val, ttl, now)).1 == Stored(true)
    ensures var d' := Apply(d, SetNX(key, val, ttl, now)).0;
            && (Apply(d', Get(key, later)).1 == Found(if later <= now + ttl then Some(val) else None))
            && (Apply(d', SetNX(key, val', ttl', later)).1 == Stored(later > now + ttl))
            && (other != key ==> Apply(d', Get(other, later)).1 == Apply(d, Get(other, later)).1)
  {
  }
}
