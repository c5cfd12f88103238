/** Keyset pagination of the claim list (internal/store/query.go).

    Rows are ordered by creation time and then id, newest first. Ids are 128-bit UUIDs, here
    natural numbers with the same order. */
module Paging {
  import opened Common
  import opened ClaimDomain

  datatype Row = Row(storeId: string, machine: string, status: Status, at: int)

  type Table = map<nat, Row>

  datatype Key = Key(at: int, id: nat)

  predicate Less(a: Key, b: Key) {
    a.at < b.at || (a.at == b.at && a.id < b.id)
  }

  datatype Filter = Filter(storeId: string, statuses: seq<Status>, machine: string, from: Option<int>, to: Option<int>)

  predicate Matches(f: Filter, r: Row) {
    && r.storeId == f.storeId
    && (f.statuses != [] ==> r.status in f.statuses)
    && (f.machine != "" ==> r.machine == f.machine)
    && (f.from.Some? ==> f.from.value <= r.at)
    && (f.to.Some? ==> r.at < f.to.value)
  }

  predicate Below(k: Key, cursor: Option<Key>) {
    cursor.Some? ==> Less(k, cursor.value)
  }

  function Keys(t: Table): set<Key> {
    set id | id in t :: Key(t[id].at, id)
  }

  function Matching(t: Table, f: Filter): set<Key> {
    set id | id in t && Matches(f, t[id]) :: Key(t[id].at, id)
  }

  function Candidates(t: Table, f: Filter, cursor: Option<Key>): set<Key> {
    set k | k in Matching(t, f) && Below(k, cursor)
  }

  const DEFAULT_LIMIT := 50

  function PageLimit(limit: int): nat {
    if limit <= 0 || limit > 200 then DEFAULT_LIMIT else limit
  }

  lemma PageSizes(limit: int)
    ensures if 1 <= limit <= 200 then PageLimit(limit) == limit else PageLimit(limit) == 50
  {
  }

  predicate Descending(out: seq<Key>) {
    forall i, j :: 0 <= i < j < |out| ==> Less(out[j], out[i])
  }

  // The database's answer to ORDER BY created_at DESC, id DESC LIMIT n.
  ghost predicate IsTop(s: set<Key>, n: nat, out: seq<Key>) {
    && Descending(out) && |out| <= n
    && (forall k :: k in out ==> k in s)
    && (forall k :: k in s && k !in out ==> |out| == n && forall o :: o in out ==> Less(k, o))
  }

  lemma {:induction false} Newest(s: set<Key>) returns (m: Key)
    requires s != {}
    ensures m in s && forall k :: k in s ==> k == m || Less(k, m)
  {
    m :| m in s;
    var rest := s - {m};
    assert s == rest + {m};
    if rest != {} {
      var n := Newest(rest);
      if Less(m, n) {
        m := n;
      }
    }
  }

  /** Every set of rows has such an answer, and only one. */
  lemma {:induction false} TopExists(s: set<Key>, n: nat) returns (out: seq<Key>)
    ensures IsTop(s, n, out)
    ensures forall other :: IsTop(s, n, other) ==> other == out
    decreases n
  {
    if n == 0 || s == {} {
      out := [];
      forall other | IsTop(s, n, other)
        ensures other == []
      {
        TopOfNothing(s, n, other);
      }
    } else {
      var m := Newest(s);
      var tail := TopExists(s - {m}, n - 1);
      out := [m] + tail;
      forall i | 0 < i < |out|
        ensures Less(out[i], m)
      {
        assert out[i] in tail;
      }
      forall other | IsTop(s, n, other)
        ensures other == out
      {
        TopStartsWithNewest(s, n, other, m);
        assert other == [m] + other[1..];
      }
    }
  }

  lemma TopOfNothing(s: set<Key>, n: nat, out: seq<Key>)
    requires IsTop(s, n, out)
    ensures s == {} ==> out == []
  {
    if out != [] {
      assert out[0] in out;
    }
  }

  lemma TopStartsWithNewest(s: set<Key>, n: nat, out: seq<Key>, m: Key)
    requires n > 0 && IsTop(s, n, out) && m in s && forall k :: k in s ==> k == m || Less(k, m)
    ensures out != [] && out[0] == m && IsTop(s - {m}, n - 1, out[1..])
  {
    assert |out| > 0 ==> out[0] in out;
    assert m in out;
    var j :| 0 <= j < |out| && out[j] == m;
    forall k | k in out[1..]
      ensures k in s - {m}
    {
      var i :| 1 <= i < |out| && out[i] == k;
      assert out[i] in out;
    }
    forall k | k in s - {m} && k !in out[1..]
      ensures |out[1..]| == n - 1 && forall o :: o in out[1..] ==> Less(k, o)
    {
      assert k !in out;
      forall o | o in out[1..] ensures o in out {}
    }
  }

  // One page out of a database answer of up to limit + 1 rows: the extra row only says that
  // there is more.
  function PageOf(rows: seq<Key>, limit: nat): (seq<Key>, Option<Key>)
    requires limit > 0
  {
    if |rows| > limit then (rows[..limit], Some(rows[limit - 1])) else (rows, None)
  }

  method ListClaims(rows: seq<Key>, limit: int) returns (out: seq<Key>, next: Option<Key>)
    requires |rows| <= PageLimit(limit) + 1
    ensures (out, next) == PageOf(rows, PageLimit(limit))
  {
    var lim := limit;
    if lim <= 0 || lim > 200 {
      lim := DEFAULT_LIMIT;
    }
    out := [];
    var i := 0;
    while i < |rows|
      invariant 0 <= i <= |rows| && out == rows[..i]
    {
      out := out + [rows[i]];
      i := i + 1;
    }
    assert rows[..i] == rows;
    next := None;
    if |out| > lim {
      out := out[..lim];
      next := Some(out[|out| - 1]);
    }
  }

  // ----- following the cursors -----

  // One fetch: the table as it was then, the database's answer and the requested limit.
  datatype Fetch = Fetch(t: Table, rows: seq<Key>, limit: int)

  datatype Walk = Walk(out: seq<Key>, cursor: Option<Key>, done: bool)

  function Follow(fs: seq<Fetch>): Walk {
    if fs == [] then Walk([], None, false)
    else
      var w, fetch := Follow(fs[..|fs| - 1]), fs[|fs| - 1];
      if w.done then w
      else
        var (page, next) := PageOf(fetch.rows, PageLimit(fetch.limit));
        Walk(w.out + page, next, next.None?)
  }

  // Each answer is the right one for its table, the filter and the cursor at that point.
  ghost predicate Answered(fs: seq<Fetch>, f: Filter) {
    fs == [] ||
    (var fetch := fs[|fs| - 1];
     && Answered(fs[..|fs| - 1], f)
     && IsTop(Candidates(fetch.t, f, Follow(fs[..|fs| - 1]).cursor), PageLimit(fetch.limit) + 1, fetch.rows))
  }

  ghost predicate MatchedThroughout(fs: seq<Fetch>, f: Filter, k: Key) {
    forall i :: 0 <= i < |fs| ==> k in Matching(fs[i].t, f)
  }

  // What has been collected is everything above the cursor that matched all along.
  ghost predicate WalkInv(fs: seq<Fetch>, f: Filter) {
    var w := Follow(fs);
    && Descending(w.out)
    && (w.cursor.Some? ==> !w.done && forall k :: k in w.out ==> k == w.cursor.value || Less(w.cursor.value, k))
    && (!w.done && w.cursor.None? ==> w.out == [])
    && (forall k :: k in w.out ==> exists i :: 0 <= i < |fs| && k in Matching(fs[i].t, f))
    && (forall k :: MatchedThroughout(fs, f, k) && (w.done || !Below(k, w.cursor)) && fs != [] ==> k in w.out)
  }

  lemma ConcatDescending(a: seq<Key>, b: seq<Key>)
    requires Descending(a) && Descending(b) && forall x, y :: x in a && y in b ==> Less(y, x)
    ensures Descending(a + b)
  {
  }

  // A page holds every candidate that is not below its last row.
  lemma PageIsComplete(s: set<Key>, rows: seq<Key>, limit: nat, k: Key)
    requires limit > 0 && IsTop(s, limit + 1, rows) && k in s
    ensures var (page, next) := PageOf(rows, limit);
            (next.None? ==> k in page) && (next.Some? ==> k in page || Less(k, next.value))
  {
  }

  lemma PageBelow(s: set<Key>, rows: seq<Key>, limit: nat, cursor: Option<Key>)
    requires limit > 0 && IsTop(s, limit + 1, rows) && forall k :: k in s ==> Below(k, cursor)
    ensures var (page, next) := PageOf(rows, limit);
            && Descending(page)
            && (forall k :: k in page ==> k in s && Below(k, cursor))
            && (next.Some? ==> next.value in page && forall k :: k in page ==> k == next.value || Less(next.value, k))
  {
  }

  lemma {:induction false} FollowKeepsInv(fs: seq<Fetch>, f: Filter)
    requires Answered(fs, f)
    ensures WalkInv(fs, f)
  {
    if fs != [] {
      var before, fetch := fs[..|fs| - 1], fs[|fs| - 1];
      FollowKeepsInv(before, f);
      var w, limit := Follow(before), PageLimit(fetch.limit);
      if !w.done {
        var s := Candidates(fetch.t, f, w.cursor);
        var (page, next) := PageOf(fetch.rows, limit);
        PageBelow(s, fetch.rows, limit, w.cursor);
        forall x, y | x in w.out && y in page
          ensures Less(y, x)
        {
        }
        ConcatDescending(w.out, page);
        forall k | MatchedThroughout(fs, f, k) && (next.None? || !Less(k, next.value))
          ensures k in w.out + page
        {
          assert k in Matching(fetch.t, f);
          assert forall i :: 0 <= i < |before| ==> before[i] == fs[i];
          if Below(k, w.cursor) {
            PageIsComplete(s, fetch.rows, limit, k);
          }
        }
        forall k | k in w.out + page
          ensures exists i :: 0 <= i < |fs| && k in Matching(fs[i].t, f)
        {
          if k in page {
            assert k in Matching(fs[|fs| - 1].t, f);
          } else {
            var i :| 0 <= i < |before| && k in Matching(before[i].t, f);
            assert k in Matching(fs[i].t, f);
          }
        }
      } else {
        OneMore(fs, f);
      }
    }
  }

  lemma OneMore(fs: seq<Fetch>, f: Filter)
    requires fs != [] && WalkInv(fs[..|fs| - 1], f) && Follow(fs[..|fs| - 1]).done
    ensures WalkInv(fs, f)
  {
  }

  /** Following next-cursors over changing tables and any limits: the pages put together are
      strictly descending, so nothing is shown twice; every claim shown matched the filter when
      it was fetched; and once there is no next cursor, every claim that matched throughout has
      been shown. */
  lemma PagesAreExact(fs: seq<Fetch>, f: Filter)
    requires Answered(fs, f)
    ensures Descending(Follow(fs).out)
    ensures forall k :: k in Follow(fs).out ==> exists i :: 0 <= i < |fs| && k in Matching(fs[i].t, f)
    ensures Follow(fs).done ==> forall k :: MatchedThroughout(fs, f, k) ==> k in Follow(fs).out
  {
    FollowKeepsInv(fs, f);
  }

  // ----- termination -----

  // Every row that appears later is newer than all rows of the first table.
  ghost predicate OnlyNewer(fs: seq<Fetch>) {
    forall i, k :: 0 <= i < |fs| && k in Keys(fs[i].t) ==>
      k in Keys(fs[0].t) || forall m :: m in Keys(fs[0].t) ==> Less(m, k)
  }

  function KeysBelow(s: set<Key>, cursor: Key): set<Key> {
    set k | k in s && Less(k, cursor)
  }

  lemma MatchingAreKeys(t: Table, f: Filter)
    ensures Matching(t, f) <= Keys(t)
  {
  }

  // While there is a next cursor, it is a row of the first table and each fetch used up one row.
  lemma {:induction false} CursorDescends(fs: seq<Fetch>, f: Filter)
    requires fs != [] && Answered(fs, f) && OnlyNewer(fs) && !Follow(fs).done
    ensures var w, first := Follow(fs), Keys(fs[0].t);
            && w.cursor.Some? && w.cursor.value in first
            && |KeysBelow(first, w.cursor.value)| + |fs| <= |first|
            && |KeysBelow(first, w.cursor.value)| > 0
  {
    var before, fetch := fs[..|fs| - 1], fs[|fs| - 1];
    var w, limit, first := Follow(before), PageLimit(fetch.limit), Keys(fs[0].t);
    var s := Candidates(fetch.t, f, w.cursor);
    var next := PageOf(fetch.rows, limit).1;
    PageBelow(s, fetch.rows, limit, w.cursor);
    MatchingAreKeys(fetch.t, f);
    var extra := fetch.rows[limit];
    assert extra in fetch.rows && Less(extra, next.value);
    if before == [] {
      assert KeysBelow(first, next.value) <= first - {next.value};
      Smaller(KeysBelow(first, next.value), first - {next.value});
    } else {
      assert OnlyNewer(before) by {
        assert before[0] == fs[0] && forall i :: 0 <= i < |before| ==> before[i] == fs[i];
      }
      CursorDescends(before, f);
      assert next.value in first && Less(next.value, w.cursor.value);
      assert KeysBelow(first, next.value) <= KeysBelow(first, w.cursor.value) - {next.value};
      Smaller(KeysBelow(first, next.value), KeysBelow(first, w.cursor.value) - {next.value});
    }
    assert extra in KeysBelow(first, next.value);
  }

  lemma {:induction false} Smaller(a: set<Key>, b: set<Key>)
    requires a <= b
    ensures |a| <= |b|
  {
    assert b == a + (b - a);
  }

  /** The walk ends: whatever newer claims arrive in between, after as many fetches as there were
      rows at the start (and at least one) there is no next cursor. */
  lemma WalkEnds(fs: seq<Fetch>, f: Filter)
    requires Answered(fs, f) && OnlyNewer(fs)
    requires fs != [] && |fs| >= |Keys(fs[0].t)|
    ensures Follow(fs).done
  {
    if !Follow(fs).done {
      CursorDescends(fs, f);
    }
  }

  // ----- what a filter lets through -----

  /** Two adjacent periods show every claim of the whole period in exactly one of them, at either end
      open or closed. */
  lemma PeriodsSplit(t: Table, f: Filter, from: Option<int>, cut: int, to: Option<int>)
    requires from.Some? ==> from.value <= cut
    requires to.Some? ==> cut <= to.value
    ensures var before := Matching(t, f.(from := from, to := Some(cut)));
            var since := Matching(t, f.(from := Some(cut), to := to));
            before !! since && before + since == Matching(t, f.(from := from, to := to))
            && forall k: Key :: k in since ==> k.at >= cut
  {
    var whole := Matching(t, f.(from := from, to := to));
    forall k | k in whole
      ensures k in Matching(t, f.(from := from, to := Some(cut))) + Matching(t, f.(from := Some(cut), to := to))
    {
      var id :| id in t && Matches(f.(from := from, to := to), t[id]) && k == Key(t[id].at, id);
      assert Matches(f.(from := from, to := Some(cut)), t[id]) || Matches(f.(from := Some(cut), to := to), t[id]);
    }
  }

  /** Without other criteria a filter shows the claims of its store; each one under its own status
      and under no other, and no status given shows all of them; likewise for machines. */
  lemma FilterExactly(t: Table, f: Filter, id: nat)
    requires id in t
    ensures var k, r := Key(t[id].at, id), t[id];
            var open := f.(statuses := [], machine := "", from := None, to := None);
            && (k in Matching(t, open) <==> r.storeId == f.storeId)
            && (f.statuses != [] ==>
                  (k in Matching(t, open.(statuses := f.statuses)) <==> k in Matching(t, open) && r.status in f.statuses))
            && (f.machine != "" ==>
                  (k in Matching(t, open.(machine := f.machine)) <==> k in Matching(t, open) && r.machine == f.machine))
            && (k in Matching(t, f) <==>
                k in Matching(t, open.(statuses := f.statuses)) && k in Matching(t, open.(machine := f.machine))
                && k in Matching(t, open.(from := f.from)) && k in Matching(t, open.(to := f.to)))
  {
    MatchingIs(t, f, id);
    var open := f.(statuses := [], machine := "", from := None, to := None);
    MatchingIs(t, open, id);
    MatchingIs(t, open.(statuses := f.statuses), id);
    MatchingIs(t, open.(machine := f.machine), id);
    MatchingIs(t, open.(from := f.from), id);
    MatchingIs(t, open.(to := f.to), id);
  }

  lemma MatchingIs(t: Table, f: Filter, id: nat)
    requires id in t
    ensures Key(t[id].at, id) in Matching(t, f) <==> Matches(f, t[id])
  {
  }

  // ----- the query's conditions, put together one by one -----

  datatype Condition =
    | InStore(storeId: string)
    | HasStatus(statuses: seq<Status>)
    | OnMachine(machine: string)
    | NotBefore(at: int)
    | Before(at: int)
    | After(cursor: Key)

  predicate Holds(c: Condition, r: Row, k: Key) {
    match c
    case InStore(storeId) => r.storeId == storeId
    case HasStatus(statuses) => r.status in statuses
    case OnMachine(machine) => r.machine == machine
    case NotBefore(at) => k.at >= at
    case Before(at) => k.at < at
    case After(cursor) => Less(k, cursor)
  }

  ghost predicate AllHold(cs: seq<Condition>, r: Row, k: Key) {
    forall c :: c in cs ==> Holds(c, r, k)
  }

  lemma AllHoldSnoc(cs: seq<Condition>, c: Condition)
    ensures forall r: Row, k: Key :: AllHold(cs + [c], r, k) <==> AllHold(cs, r, k) && Holds(c, r, k)
  {
    assert forall x :: x in cs + [c] <==> x in cs || x == c;
  }

  /** The conditions joined by AND let through exactly the rows of the filter below the cursor. */
  method Where(f: Filter, cursor: Option<Key>) returns (cs: seq<Condition>)
    ensures forall id: nat, r: Row :: AllHold(cs, r, Key(r.at, id)) <==> Matches(f, r) && Below(Key(r.at, id), cursor)
  {
    cs := [];
    AllHoldSnoc(cs, InStore(f.storeId));
    cs := cs + [InStore(f.storeId)];
    if |f.statuses| > 0 {
      AllHoldSnoc(cs, HasStatus(f.statuses));
      cs := cs + [HasStatus(f.statuses)];
    }
    if f.machine != "" {
      AllHoldSnoc(cs, OnMachine(f.machine));
      cs := cs + [OnMachine(f.machine)];
    }
    if f.from.Some? {
      AllHoldSnoc(cs, NotBefore(f.from.value));
      cs := cs + [NotBefore(f.from.value)];
    }
    if f.to.Some? {
      AllHoldSnoc(cs, Before(f.to.value));
      cs := cs + [Before(f.to.value)];
    }
    if cursor.Some? {
      AllHoldSnoc(cs, After(cursor.value));
      cs := cs + [After(cursor.value)];
    }
  }
}
