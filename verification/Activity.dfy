/** Machines with many recent claims (internal/store/stats.go): the rows of a grouped query are
    added up per machine. */
module Activity {
  import opened Common
  import opened Sequences

  // What the query sees of a claim.
  datatype Report = Report(machine: string, issue: string, at: int)

  datatype Row = Row(machine: string, issue: string, n: int)

  datatype MachineActivity = MachineActivity(machine: string, count: int, byIssue: map<string, int>)

  // ----- the grouped query -----

  predicate Counted(r: Report, machine: string, since: int) {
    r.machine == machine && r.at >= since
  }

  function IssueCount(rs: seq<Report>, machine: string, issue: string, since: int): nat {
    if rs == [] then 0
    else
      var r := rs[|rs| - 1];
      IssueCount(rs[..|rs| - 1], machine, issue, since)
      + if Counted(r, machine, since) && r.issue == issue then 1 else 0
  }

  function MachineCount(rs: seq<Report>, machine: string, since: int): nat {
    if rs == [] then 0
    else MachineCount(rs[..|rs| - 1], machine, since) + if Counted(rs[|rs| - 1], machine, since) then 1 else 0
  }

  // One row per machine and issue that occurs since `since`, in any order.
  ghost predicate IsGrouping(rows: seq<Row>, rs: seq<Report>, since: int) {
    && Distinct(rows)
    && (forall i :: 0 <= i < |rows| ==> rows[i].n == IssueCount(rs, rows[i].machine, rows[i].issue, since))
    && Covers(rows, rs, since)
  }

  ghost predicate Distinct(rows: seq<Row>) {
    forall i, j :: 0 <= i < j < |rows| ==> !(rows[i].machine == rows[j].machine && rows[i].issue == rows[j].issue)
  }

  ghost predicate HasRow(rows: seq<Row>, machine: string, issue: string) {
    exists i :: 0 <= i < |rows| && rows[i].machine == machine && rows[i].issue == issue
  }

  ghost predicate Covers(rows: seq<Row>, rs: seq<Report>, since: int) {
    forall k :: 0 <= k < |rs| && rs[k].at >= since ==> HasRow(rows, rs[k].machine, rs[k].issue)
  }

  // ----- adding the rows up -----

  function Total(rows: seq<Row>, machine: string): int {
    if rows == [] then 0
    else
      var r := rows[|rows| - 1];
      Total(rows[..|rows| - 1], machine) + if r.machine == machine then r.n else 0
  }

  function ByIssue(rows: seq<Row>, machine: string): map<string, int> {
    if rows == [] then map[]
    else
      var m, r := ByIssue(rows[..|rows| - 1], machine), rows[|rows| - 1];
      if r.machine == machine then AddTo(m, r.issue, r.n) else m
  }

  function AddTo(m: map<string, int>, issue: string, n: int): map<string, int> {
    m[issue := (if issue in m then m[issue] else 0) + n]
  }

  function Machines(rows: seq<Row>): set<string> {
    set i | 0 <= i < |rows| :: rows[i].machine
  }

  function ActivityOf(rows: seq<Row>, machine: string): MachineActivity {
    MachineActivity(machine, Total(rows, machine), ByIssue(rows, machine))
  }

  lemma {:induction false} NoRows(rows: seq<Row>, machine: string)
    requires machine !in Machines(rows)
    ensures Total(rows, machine) == 0 && ByIssue(rows, machine) == map[]
  {
    if rows != [] {
      var init := rows[..|rows| - 1];
      assert forall i :: 0 <= i < |init| ==> init[i] == rows[i];
      assert rows[|rows| - 1].machine in Machines(rows);
      assert Machines(init) <= Machines(rows);
      NoRows(init, machine);
    }
  }

  lemma MachinesSnoc(rows: seq<Row>, i: nat)
    requires i < |rows|
    ensures Machines(rows[..i + 1]) == Machines(rows[..i]) + {rows[i].machine}
  {
  }

  /** The machines at or above the threshold with their counts, each once. */
  method MachinesOverThreshold(rows: seq<Row>, threshold: int) returns (out: seq<MachineActivity>)
    ensures forall a :: a in out <==> a.machine in Machines(rows) && a == ActivityOf(rows, a.machine)
                                      && a.count >= threshold
    ensures forall i, j :: 0 <= i < j < |out| ==> out[i].machine != out[j].machine
  {
    var byMachine := CollectMachines(rows);
    out := [];
    var left := byMachine.Keys;
    while left != {}
      invariant left <= Machines(rows)
      invariant forall a :: a in out <==> a.machine in Machines(rows) - left && a == ActivityOf(rows, a.machine)
                                          && a.count >= threshold
      invariant forall i, j :: 0 <= i < j < |out| ==> out[i].machine != out[j].machine
      decreases |left|
    {
      var m :| m in left;
      if byMachine[m].count >= threshold {
        out := out + [byMachine[m]];
      }
      left := left - {m};
    }
  }

  method CollectMachines(rows: seq<Row>) returns (byMachine: map<string, MachineActivity>)
    ensures byMachine.Keys == Machines(rows)
    ensures forall m :: m in byMachine ==> byMachine[m] == ActivityOf(rows, m)
  {
    byMachine := map[];
    for i := 0 to |rows|
      invariant byMachine.Keys == Machines(rows[..i])
      invariant forall m :: m in byMachine ==> byMachine[m] == ActivityOf(rows[..i], m)
    {
      var r := rows[i];
      MachinesSnoc(rows, i);
      assert rows[..i + 1][..i] == rows[..i];
      if r.machine !in byMachine {
        NoRows(rows[..i], r.machine);
        byMachine := byMachine[r.machine := MachineActivity(r.machine, 0, map[])];
      }
      var a := byMachine[r.machine];
      byMachine := byMachine[r.machine := MachineActivity(a.machine, a.count + r.n, AddTo(a.byIssue, r.issue, r.n))];
    }
    assert rows[..|rows|] == rows;
  }

  // ----- the sums are the claims -----

  // The rows of a machine, with their counts taken from the reports.
  function Recount(rows: seq<Row>, machine: string, rs: seq<Report>, since: int): int {
    if rows == [] then 0
    else
      var r := rows[|rows| - 1];
      Recount(rows[..|rows| - 1], machine, rs, since)
      + if r.machine == machine then IssueCount(rs, machine, r.issue, since) else 0
  }

  lemma {:induction false} RecountIsTotal(rows: seq<Row>, machine: string, rs: seq<Report>, since: int)
    requires forall i :: 0 <= i < |rows| ==> rows[i].n == IssueCount(rs, rows[i].machine, rows[i].issue, since)
    ensures Total(rows, machine) == Recount(rows, machine, rs, since)
  {
    if rows != [] {
      RecountIsTotal(rows[..|rows| - 1], machine, rs, since);
    }
  }

  lemma HasRowSnoc(rows: seq<Row>, machine: string, issue: string)
    requires rows != []
    ensures HasRow(rows, machine, issue)
            <==> HasRow(rows[..|rows| - 1], machine, issue)
                 || (rows[|rows| - 1].machine == machine && rows[|rows| - 1].issue == issue)
  {
  }

  lemma {:induction false} RecountSnoc(rows: seq<Row>, machine: string, rs: seq<Report>, r: Report, since: int)
    requires Distinct(rows)
    ensures Recount(rows, machine, rs + [r], since) == Recount(rows, machine, rs, since)
            + if Counted(r, machine, since) && HasRow(rows, machine, r.issue) then 1 else 0
  {
    if rows != [] {
      var init, row := rows[..|rows| - 1], rows[|rows| - 1];
      RecountSnoc(init, machine, rs, r, since);
      HasRowSnoc(rows, machine, r.issue);
      assert (rs + [r])[..|rs|] == rs;
      if row.machine == machine && row.issue == r.issue {
        assert !HasRow(init, machine, r.issue);
      }
    }
  }

  lemma {:induction false} NothingToRecount(rows: seq<Row>, machine: string, since: int)
    ensures Recount(rows, machine, [], since) == 0
  {
    if rows != [] {
      NothingToRecount(rows[..|rows| - 1], machine, since);
    }
  }

  lemma {:induction false} RecountIsCount(rows: seq<Row>, machine: string, rs: seq<Report>, since: int)
    requires Distinct(rows) && Covers(rows, rs, since)
    ensures Recount(rows, machine, rs, since) == MachineCount(rs, machine, since)
  {
    if rs == [] {
      NothingToRecount(rows, machine, since);
    } else {
      var init, r := rs[..|rs| - 1], rs[|rs| - 1];
      assert forall k :: 0 <= k < |init| ==> init[k] == rs[k];
      RecountIsCount(rows, machine, init, since);
      RecountSnoc(rows, machine, init, r, since);
      assert rs == init + [r];
    }
  }

  lemma {:induction false} MachineCountIs(rs: seq<Report>, machine: string, since: int)
    ensures MachineCount(rs, machine, since) == |Places(rs, (r: Report) => r.machine == machine && r.at >= since)|
  {
    if rs != [] {
      MachineCountIs(rs[..|rs| - 1], machine, since);
      PlacesSnoc(rs, (r: Report) => r.machine == machine && r.at >= since);
    }
  }

  lemma {:induction false} IssueCountIs(rs: seq<Report>, machine: string, issue: string, since: int)
    ensures IssueCount(rs, machine, issue, since)
            == |Places(rs, (r: Report) => r.machine == machine && r.issue == issue && r.at >= since)|
  {
    if rs != [] {
      IssueCountIs(rs[..|rs| - 1], machine, issue, since);
      PlacesSnoc(rs, (r: Report) => r.machine == machine && r.issue == issue && r.at >= since);
    }
  }

  /** With the window of 24 hours and a positive threshold, a machine is alerted exactly if that many
      stored claims on it are at most 24 hours old; the figures shown are the numbers of those claims,
      in all and by issue. */
  lemma AlertedExactly(rows: seq<Row>, rs: seq<Report>, now: int, threshold: int, machine: string, issue: string)
    requires IsGrouping(rows, rs, now - 86_400_000_000_000) && threshold >= 1
    ensures var since := now - 86_400_000_000_000;
            var mine := Places(rs, (r: Report) => r.machine == machine && r.at >= since);
            var a := ActivityOf(rows, machine);
            && (machine in Machines(rows) && a.count >= threshold <==> |mine| >= threshold)
            && a.machine == machine && a.count == |mine|
            && (issue in a.byIssue ==>
                  a.byIssue[issue] == |Places(rs, (r: Report) => r.machine == machine && r.issue == issue && r.at >= since)|)
  {
    var since := now - 86_400_000_000_000;
    AlertedMachines(rows, rs, since, threshold, machine);
    IssuesAre(rows, rs, since, machine, issue);
    MachineCountIs(rs, machine, since);
    IssueCountIs(rs, machine, issue, since);
  }

  /** A machine's total over the grouped rows is the number of its claims in the window, so with a
      positive threshold the alerted machines are exactly those with that many claims. */
  lemma AlertedMachines(rows: seq<Row>, rs: seq<Report>, since: int, threshold: int, machine: string)
    requires IsGrouping(rows, rs, since)
    ensures Total(rows, machine) == MachineCount(rs, machine, since)
    ensures threshold >= 1 ==>
              (machine in Machines(rows) && ActivityOf(rows, machine).count >= threshold
               <==> MachineCount(rs, machine, since) >= threshold)
  {
    RecountIsTotal(rows, machine, rs, since);
    RecountIsCount(rows, machine, rs, since);
    if machine !in Machines(rows) {
      NoRows(rows, machine);
    }
  }

  /** Each issue's figure is the number of the machine's claims of that issue. */
  lemma {:induction false} IssuesAre(rows: seq<Row>, rs: seq<Report>, since: int, machine: string, issue: string)
    requires Distinct(rows)
    requires forall i :: 0 <= i < |rows| ==> rows[i].n == IssueCount(rs, rows[i].machine, rows[i].issue, since)
    ensures issue in ByIssue(rows, machine) <==> HasRow(rows, machine, issue)
    ensures issue in ByIssue(rows, machine) ==> ByIssue(rows, machine)[issue] == IssueCount(rs, machine, issue, since)
  {
    if rows != [] {
      var init, row := rows[..|rows| - 1], rows[|rows| - 1];
      IssuesAre(init, rs, since, machine, issue);
      HasRowSnoc(rows, machine, issue);
      if row.machine == machine && row.issue == issue {
        assert !HasRow(init, machine, issue);
      }
    }
  }
}
