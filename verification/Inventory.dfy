/** One store's stock (internal/store/inventory.go): two append-only logs, of purchases and of
    counts, and the stock as a view over them. The view stands in for a running counter. */
module Inventory {
  import opened Common
  import opened Costs
  import opened Sequences

  datatype Adjustment = Adjustment(id: int, nameKey: string, delta: int, countedQty: int, createdAt: int)

  datatype Books = Books(purchases: seq<Purchase>, counts: seq<Adjustment>)

  // ----- the view -----

  function Of(ps: seq<Purchase>, name: string): seq<Purchase> {
    if ps == [] then []
    else
      var p := ps[|ps| - 1];
      Of(ps[..|ps| - 1], name) + if p.nameKey == name then [p] else []
  }

  // ORDER BY created_at DESC, id DESC
  predicate Later(a: Adjustment, b: Adjustment) {
    a.createdAt > b.createdAt || (a.createdAt == b.createdAt && a.id > b.id)
  }

  function LatestCount(cs: seq<Adjustment>, name: string): Option<Adjustment> {
    if cs == [] then None
    else
      var best, c := LatestCount(cs[..|cs| - 1], name), cs[|cs| - 1];
      if c.nameKey == name && (best.None? || Later(c, best.value)) then Some(c) else best
  }

  // The quantity bought under a name since a moment, that moment excluded.
  function Since(ps: seq<Purchase>, name: string, after: int): int {
    if ps == [] then 0
    else
      var p := ps[|ps| - 1];
      Since(ps[..|ps| - 1], name, after) + if p.nameKey == name && p.createdAt > after then p.qty else 0
  }

  function OnHand(b: Books, name: string): int {
    match LatestCount(b.counts, name)
    case None => Bought(Of(b.purchases, name))
    case Some(c) => c.countedQty + Since(b.purchases, name, c.createdAt)
  }

  // ORDER BY purchased_at DESC, created_at DESC
  predicate Newer(p: Purchase, q: Purchase) {
    p.purchasedAt > q.purchasedAt || (p.purchasedAt == q.purchasedAt && p.createdAt > q.createdAt)
  }

  function LastOf(ps: seq<Purchase>, name: string): Option<Purchase> {
    if ps == [] then None
    else
      var best, p := LastOf(ps[..|ps| - 1], name), ps[|ps| - 1];
      if p.nameKey == name && (best.None? || Newer(p, best.value)) then Some(p) else best
  }

  // MAX(purchased_at); the instant zero for a name never bought.
  function LastAt(ps: seq<Purchase>, name: string): int {
    if LastOf(ps, name).Some? then LastOf(ps, name).value.purchasedAt else 0
  }

  datatype Item = Item(nameKey: string, onHand: int, bought: int, purchases: nat, avgUnitCost: int, value: int,
                       lastAt: int, lastVendor: string, lastUnitCost: int)

  function RowOf(b: Books, name: string): Item {
    var ps := Of(b.purchases, name);
    var bought := Bought(ps);
    var last := LastOf(b.purchases, name);
    Item(name, OnHand(b, name), bought, |ps|,
         if bought > 0 then AverageCost(Spent(ps), bought) else 0,
         if bought > 0 then StockValue(Spent(ps), bought, OnHand(b, name)) else 0,
         LastAt(b.purchases, name),
         if last.Some? then last.value.vendor else "",
         if last.Some? then UnitCostOf(last.value) else 0)
  }

  // The inventory query's names: every name ever bought, once, the last bought first.
  ghost predicate IsInventoryList(names: seq<string>, ps: seq<Purchase>) {
    && IsListing(names, ps)
    && (forall i :: 0 <= i < |names| ==> Known(ps, names[i]))
    && (forall i, j :: 0 <= i < j < |names| ==> LastAt(ps, names[i]) >= LastAt(ps, names[j]))
  }

  function SpentIn(ps: seq<Purchase>, from: int, to: int): int {
    if ps == [] then 0
    else
      var p := ps[|ps| - 1];
      SpentIn(ps[..|ps| - 1], from, to) + if from <= p.purchasedAt < to then CostOf(p) else 0
  }

  // ----- requests -----

  datatype Request =
    | Submit(p: Purchase)
    | Tally(c: Adjustment)

  predicate KeyUsed(ps: seq<Purchase>, key: string) {
    exists i :: 0 <= i < |ps| && ps[i].idemKey == key
  }

  predicate Known(ps: seq<Purchase>, name: string) {
    Of(ps, name) != []
  }

  function ByKey(ps: seq<Purchase>, key: string): (p: Purchase)
    requires KeyUsed(ps, key)
    ensures p in ps && p.idemKey == key
  {
    if ps[0].idemKey == key then ps[0] else ByKey(ps[1..], key)
  }

  // A purchase is taken once per key; a count only for a name that was ever bought.
  predicate Accepted(b: Books, r: Request) {
    match r
    case Submit(p) => !KeyUsed(b.purchases, p.idemKey)
    case Tally(c) => Known(b.purchases, c.nameKey)
  }

  function Next(b: Books, r: Request): Books {
    if !Accepted(b, r) then b
    else
      match r
      case Submit(p) => Books(b.purchases + [p], b.counts)
      case Tally(c) => Books(b.purchases, b.counts + [c])
  }

  function Run(rs: seq<Request>): Books {
    if rs == [] then Books([], []) else Next(Run(rs[..|rs| - 1]), rs[|rs| - 1])
  }

  datatype Duplicate = Duplicate

  class Ledger {
    var purchases: seq<Purchase>
    var counts: seq<Adjustment>

    constructor ()
      ensures Value() == Books([], [])
    {
      purchases, counts := [], [];
    }

    function Value(): Books
      reads this
    {
      Books(purchases, counts)
    }

    // INSERT .. ON CONFLICT DO NOTHING; on a conflict the first purchase is read back, unless
    // its row cannot be seen yet.
    method CreatePurchase(p: Purchase, visible: bool) returns (r: Result<(Purchase, bool), Duplicate>)
      modifies this
      ensures Value() == Next(old(Value()), Submit(p))
      ensures !KeyUsed(old(purchases), p.idemKey) ==> r == Ok((p, false))
      ensures KeyUsed(old(purchases), p.idemKey) ==>
                r == if visible then Ok((ByKey(old(purchases), p.idemKey), true)) else Err(Duplicate)
    {
      if !KeyUsed(purchases, p.idemKey) {
        purchases := purchases + [p];
        return Ok((p, false));
      }
      if !visible {
        return Err(Duplicate);
      }
      return Ok((ByKey(purchases, p.idemKey), true));
    }

    // The stock is read before the count is written, so `seen` may be out of date by then.
    method AdjustInventory(name: string, counted: int, id: int, now: int, seen: int) returns (ok: bool)
      modifies this
      ensures ok == Known(old(purchases), name)
      ensures Value() == Next(old(Value()), Tally(Adjustment(id, name, counted - seen, counted, now)))
    {
      if !Known(purchases, name) {
        return false;
      }
      counts := counts + [Adjustment(id, name, counted - seen, counted, now)];
      return true;
    }

    // `names` is the order in which the query returns its rows.
    method InventoryFor(names: seq<string>) returns (rows: seq<Item>)
      requires IsInventoryList(names, purchases)
      ensures rows == RowsOf(Value(), names)
      ensures forall i, j :: 0 <= i < j < |rows| ==> rows[i].lastAt >= rows[j].lastAt
    {
      rows := [];
      for i := 0 to |names|
        invariant rows == RowsOf(Value(), names[..i])
      {
        assert names[..i + 1][..i] == names[..i];
        rows := rows + [RowOf(Value(), names[i])];
      }
      assert names[..|names|] == names;
      RowsAre(Value(), names);
    }

    method InventorySummaryFor(names: seq<string>, from: int, to: int)
      returns (spent: int, items: nat, onHand: int, value: int)
      requires IsInventoryList(names, purchases)
      ensures spent == SpentIn(purchases, from, to) && items == |names|
      ensures onHand == OnHandOver(Value(), names) && value == ValueOver(Value(), names)
    {
      spent := SpentIn(purchases, from, to);
      ghost var b := Value();
      var rows := InventoryFor(names);
      RowsAre(b, names);
      items, onHand, value := |rows|, 0, 0;
      for i := 0 to |rows|
        invariant onHand == OnHandOver(b, names[..i]) && value == ValueOver(b, names[..i])
      {
        SummarySnoc(b, names, i);
        if rows[i].onHand > 0 {
          onHand := onHand + rows[i].onHand;
          value := value + rows[i].value;
        }
      }
      assert names[..|names|] == names;
    }
  }

  lemma SummarySnoc(b: Books, names: seq<string>, i: nat)
    requires i < |names|
    ensures var row := RowOf(b, names[i]);
            && OnHandOver(b, names[..i + 1]) == OnHandOver(b, names[..i]) + (if row.onHand > 0 then row.onHand else 0)
            && ValueOver(b, names[..i + 1]) == ValueOver(b, names[..i]) + (if row.onHand > 0 then row.value else 0)
  {
    SplitPrefix(names, i + 1);
  }

  function RowsOf(b: Books, names: seq<string>): seq<Item> {
    if names == [] then [] else RowsOf(b, names[..|names| - 1]) + [RowOf(b, names[|names| - 1])]
  }

  lemma {:induction false} RowsAre(b: Books, names: seq<string>)
    ensures |RowsOf(b, names)| == |names|
    ensures forall i :: 0 <= i < |names| ==> RowsOf(b, names)[i] == RowOf(b, names[i])
  {
    if names != [] {
      RowsAre(b, names[..|names| - 1]);
    }
  }

  function OnHandOver(b: Books, names: seq<string>): int {
    if names == [] then 0
    else
      var n := OnHand(b, names[|names| - 1]);
      OnHandOver(b, names[..|names| - 1]) + if n > 0 then n else 0
  }

  function ValueOver(b: Books, names: seq<string>): int {
    if names == [] then 0
    else
      var row := RowOf(b, names[|names| - 1]);
      ValueOver(b, names[..|names| - 1]) + if row.onHand > 0 then row.value else 0
  }

  // ----- facts about the view -----

  /** The count the view uses is one of the name's counts and none of them is later. */
  lemma {:induction false} LatestIsTop(cs: seq<Adjustment>, name: string)
    ensures match LatestCount(cs, name)
            case None => forall i :: 0 <= i < |cs| ==> cs[i].nameKey != name
            case Some(c) => c in cs && c.nameKey == name
                            && forall i :: 0 <= i < |cs| && cs[i].nameKey == name ==> !Later(cs[i], c)
  {
    if cs != [] {
      LatestIsTop(cs[..|cs| - 1], name);
    }
  }

  /** The last purchase shown for a name is one of its purchases and none of them is newer. */
  lemma {:induction false} LastIsTop(ps: seq<Purchase>, name: string)
    ensures match LastOf(ps, name)
            case None => forall i :: 0 <= i < |ps| ==> ps[i].nameKey != name
            case Some(p) => p in ps && p.nameKey == name
                            && forall i :: 0 <= i < |ps| && ps[i].nameKey == name ==> !Newer(ps[i], p)
  {
    if ps != [] {
      LastIsTop(ps[..|ps| - 1], name);
    }
  }

  lemma {:induction false} OfAre(ps: seq<Purchase>, name: string)
    ensures forall p :: p in Of(ps, name) <==> p in ps && p.nameKey == name
  {
    if ps != [] {
      OfAre(ps[..|ps| - 1], name);
      assert ps == ps[..|ps| - 1] + [ps[|ps| - 1]];
    }
  }

  lemma OfAllValid(ps: seq<Purchase>, name: string)
    requires AllValid(ps)
    ensures AllValid(Of(ps, name))
  {
  }

  // Nothing bought after a moment adds nothing; otherwise the sum is positive.
  lemma {:induction false} SincePositive(ps: seq<Purchase>, name: string, after: int)
    requires AllValid(ps)
    ensures Since(ps, name, after) >= 0
    ensures Since(ps, name, after) == 0 <==>
            forall i :: 0 <= i < |ps| && ps[i].nameKey == name ==> ps[i].createdAt <= after
  {
    if ps != [] {
      SincePositive(ps[..|ps| - 1], name, after);
      assert forall i :: 0 <= i < |ps| - 1 ==> ps[..|ps| - 1][i] == ps[i];
    }
  }

  // The moment of the last count of a name, before which purchases no longer add.
  predicate CountedBy(b: Books, name: string, at: int) {
    var c := LatestCount(b.counts, name);
    c.Some? && at <= c.value.createdAt
  }

  /** An accepted purchase raises the stock of its name by its quantity, and of no other name -
      exactly unless the name was counted at or after the moment the purchase was recorded. */
  lemma PurchaseMovesView(b: Books, p: Purchase, name: string)
    requires Accepted(b, Submit(p)) && ValidPurchase(p)
    ensures var b' := Next(b, Submit(p));
            OnHand(b', name) == OnHand(b, name) + (if p.nameKey == name then p.qty else 0)
            <==> !(p.nameKey == name && CountedBy(b, name, p.createdAt))
  {
    var ps := b.purchases + [p];
    assert ps[..|ps| - 1] == b.purchases;
    var mine := Of(b.purchases, name);
    assert (mine + [p])[..|mine|] == mine;
    assert mine + [] == mine;
  }

  /** A count that is the latest of its name sets the stock to what was counted exactly if
      nothing was bought under that name after it; any other count changes nothing. */
  lemma CountMovesView(b: Books, c: Adjustment, name: string)
    requires Accepted(b, Tally(c)) && AllValid(b.purchases)
    ensures var b' := Next(b, Tally(c));
            var last := LatestCount(b.counts, name);
            if c.nameKey == name && (last.None? || Later(c, last.value)) then
              OnHand(b', name) == c.countedQty <==>
              forall i :: 0 <= i < |b.purchases| && b.purchases[i].nameKey == name
                          ==> b.purchases[i].createdAt <= c.createdAt
            else
              OnHand(b', name) == OnHand(b, name)
  {
    var cs := b.counts + [c];
    assert cs[..|cs| - 1] == b.counts;
    SincePositive(b.purchases, name, c.createdAt);
  }

  // ----- the running counter -----

  function TimeOf(r: Request): int {
    match r
    case Submit(p) => p.createdAt
    case Tally(c) => c.createdAt
  }

  function NameOf(r: Request): string {
    match r
    case Submit(p) => p.nameKey
    case Tally(c) => c.nameKey
  }

  // A purchase adds, a count overwrites; repeated keys and unknown names are refused.
  function Counter(rs: seq<Request>, name: string): int {
    if rs == [] then 0
    else
      var before, r := rs[..|rs| - 1], rs[|rs| - 1];
      if !Accepted(Run(before), r) || NameOf(r) != name then Counter(before, name)
      else
        match r
        case Submit(p) => Counter(before, name) + p.qty
        case Tally(c) => c.countedQty
  }

  // The clock does not go back, and it moves on after a count before the same name is touched.
  ghost predicate InOrder(rs: seq<Request>) {
    forall i, j :: 0 <= i < j < |rs| ==>
      TimeOf(rs[i]) <= TimeOf(rs[j])
      && (rs[i].Tally? && NameOf(rs[i]) == NameOf(rs[j]) ==> TimeOf(rs[i]) < TimeOf(rs[j]))
  }

  ghost predicate RowsFrom(b: Books, rs: seq<Request>) {
    && (forall i :: 0 <= i < |b.purchases| ==> Submit(b.purchases[i]) in rs)
    && (forall i :: 0 <= i < |b.counts| ==> Tally(b.counts[i]) in rs)
  }

  lemma RowsFromSnoc(b: Books, rs: seq<Request>, r: Request)
    requires RowsFrom(b, rs)
    ensures RowsFrom(Next(b, r), rs + [r])
  {
    assert r in rs + [r];
  }

  lemma {:induction false} RunRowsFrom(rs: seq<Request>)
    ensures RowsFrom(Run(rs), rs)
  {
    if rs != [] {
      RunRowsFrom(rs[..|rs| - 1]);
      SplitLast(rs);
      RowsFromSnoc(Run(rs[..|rs| - 1]), rs[..|rs| - 1], rs[|rs| - 1]);
    }
  }

  ghost predicate Sound(rs: seq<Request>) {
    forall i :: 0 <= i < |rs| && rs[i].Submit? ==> ValidPurchase(rs[i].p)
  }

  lemma RunIsValid(rs: seq<Request>)
    requires Sound(rs)
    ensures AllValid(Run(rs).purchases)
  {
  }

  // In time order, everything already stored is as old as the last request, and counts of the
  // name the last request touches are older.
  lemma StoredBefore(rs: seq<Request>, name: string)
    requires rs != [] && InOrder(rs)
    ensures var b, r := Run(rs[..|rs| - 1]), rs[|rs| - 1];
            && (forall i :: 0 <= i < |b.purchases| ==> b.purchases[i].createdAt <= TimeOf(r))
            && (NameOf(r) == name && LatestCount(b.counts, name).Some? ==>
                  LatestCount(b.counts, name).value.createdAt < TimeOf(r))
  {
    var before := rs[..|rs| - 1];
    var b := Run(before);
    RunRowsFrom(before);
    forall i | 0 <= i < |b.purchases|
      ensures b.purchases[i].createdAt <= TimeOf(rs[|rs| - 1])
    {
      assert Submit(b.purchases[i]) in before;
    }
    LatestIsTop(b.counts, name);
    var last := LatestCount(b.counts, name);
    assert last.Some? ==> Tally(last.value) in before;
  }

  lemma LastMovesView(rs: seq<Request>, name: string)
    requires rs != [] && InOrder(rs) && Sound(rs) && Accepted(Run(rs[..|rs| - 1]), rs[|rs| - 1])
    ensures OnHand(Run(rs), name) ==
            if NameOf(rs[|rs| - 1]) != name then OnHand(Run(rs[..|rs| - 1]), name)
            else if rs[|rs| - 1].Tally? then rs[|rs| - 1].c.countedQty
            else OnHand(Run(rs[..|rs| - 1]), name) + rs[|rs| - 1].p.qty
  {
    StoredBefore(rs, name);
    match rs[|rs| - 1]
    case Submit(p) => PurchaseMovesView(Run(rs[..|rs| - 1]), p, name);
    case Tally(c) =>
      RunIsValid(rs[..|rs| - 1]);
      CountMovesView(Run(rs[..|rs| - 1]), c, name);
  }

  /** The stock view refines a running counter over every run of purchases, retries and counts,
      whatever deltas and purchase dates are recorded, provided the clock moves on between a
      count and the next entry of the same name. */
  lemma {:induction false} ViewRefinesCounter(rs: seq<Request>, name: string)
    requires InOrder(rs) && Sound(rs)
    ensures OnHand(Run(rs), name) == Counter(rs, name)
  {
    if rs != [] {
      var before := rs[..|rs| - 1];
      ViewRefinesCounter(before, name);
      if Accepted(Run(before), rs[|rs| - 1]) {
        LastMovesView(rs, name);
      }
    }
  }

  /** The proviso is needed: a purchase recorded in the same instant as a count of its name is
      lost from the view, while the counter adds it. */
  lemma SameInstantIsLost(p: Purchase, q: Purchase, c: Adjustment)
    requires p.nameKey == q.nameKey == c.nameKey && p.idemKey != q.idemKey && ValidPurchase(q)
    requires q.createdAt == c.createdAt
    requires p.createdAt <= c.createdAt
    ensures OnHand(Run([Submit(p), Tally(c), Submit(q)]), c.nameKey) == c.countedQty
    ensures Counter([Submit(p), Tally(c), Submit(q)], c.nameKey) == c.countedQty + q.qty
  {
    var rs := [Submit(p), Tally(c), Submit(q)];
    assert rs[..2] == [Submit(p), Tally(c)];
    assert rs[..2][..1] == [Submit(p)];
    assert rs[..2][..1][..0] == [];
    var b1 := Books([p], []);
    assert Run([Submit(p)]) == b1;
    assert Of([p], c.nameKey) == [p];
    var b2 := Books([p], [c]);
    assert Run(rs[..2]) == b2;
    assert !KeyUsed([p], q.idemKey);
    assert Run(rs) == Books([p, q], [c]);
    LatestOfOne(c);
    LastTwo(p, q, c.nameKey, c.createdAt);
  }

  lemma LatestOfOne(c: Adjustment)
    ensures LatestCount([c], c.nameKey) == Some(c)
  {
  }

  lemma LastTwo(p: Purchase, q: Purchase, name: string, after: int)
    requires q.createdAt <= after && p.nameKey == name
    ensures Since([p, q], name, after) == if p.createdAt > after then p.qty else 0
  {
    assert [p, q][..1] == [p];
    assert [p][..0] == [];
    assert Since([p], name, after) == if p.createdAt > after then p.qty else 0;
  }

  // ----- keys and recorded details -----

  ghost predicate UniqueKeys(ps: seq<Purchase>) {
    forall i, j :: 0 <= i < j < |ps| ==> ps[i].idemKey != ps[j].idemKey
  }

  /** No run stores two purchases under one key, so a retry reads back the one it repeats. */
  lemma {:induction false} KeysStayUnique(rs: seq<Request>)
    ensures UniqueKeys(Run(rs).purchases)
  {
    if rs != [] {
      KeysStayUnique(rs[..|rs| - 1]);
    }
  }

  // The same rows but for the recorded deltas and the dates of purchase.
  ghost predicate SameButNotes(b: Books, b': Books) {
    && |b.purchases| == |b'.purchases| && |b.counts| == |b'.counts|
    && (forall i :: 0 <= i < |b.purchases| ==>
          b'.purchases[i] == b.purchases[i].(purchasedAt := b'.purchases[i].purchasedAt))
    && (forall i :: 0 <= i < |b.counts| ==> b'.counts[i] == b.counts[i].(delta := b'.counts[i].delta))
  }

  /** Neither a stale delta nor a back-dated purchase moves the stock. */
  lemma NotesDoNotMatter(b: Books, b': Books, name: string)
    requires SameButNotes(b, b')
    ensures OnHand(b', name) == OnHand(b, name)
  {
    DeltasDoNotMatter(b.counts, b'.counts, name);
    DatesDoNotMatter(b.purchases, b'.purchases, name);
    match LatestCount(b.counts, name)
    case None =>
    case Some(c) => LaterDates(b.purchases, b'.purchases, name, c.createdAt);
  }

  lemma {:induction false} DeltasDoNotMatter(cs: seq<Adjustment>, cs': seq<Adjustment>, name: string)
    requires |cs| == |cs'| && forall i :: 0 <= i < |cs| ==> cs'[i] == cs[i].(delta := cs'[i].delta)
    ensures match LatestCount(cs, name)
            case None => LatestCount(cs', name).None?
            case Some(c) => LatestCount(cs', name).Some?
                            && LatestCount(cs', name).value == c.(delta := LatestCount(cs', name).value.delta)
  {
    if cs != [] {
      DeltasDoNotMatter(cs[..|cs| - 1], cs'[..|cs| - 1], name);
    }
  }

  lemma SameCost(p: Purchase, p': Purchase)
    requires p' == p.(purchasedAt := p'.purchasedAt)
    ensures CostOf(p') == CostOf(p) && p'.qty == p.qty && p'.nameKey == p.nameKey
  {
  }

  lemma {:induction false} DatesDoNotMatter(ps: seq<Purchase>, ps': seq<Purchase>, name: string)
    requires |ps| == |ps'| && forall i :: 0 <= i < |ps| ==> ps'[i] == ps[i].(purchasedAt := ps'[i].purchasedAt)
    ensures Bought(Of(ps', name)) == Bought(Of(ps, name)) && Spent(Of(ps', name)) == Spent(Of(ps, name))
  {
    if ps != [] {
      var n := |ps| - 1;
      DatesDoNotMatter(ps[..n], ps'[..n], name);
      SameCost(ps[n], ps'[n]);
      SumsSnoc(Of(ps[..n], name), ps[n]);
      SumsSnoc(Of(ps'[..n], name), ps'[n]);
    }
  }

  lemma {:induction false} LaterDates(ps: seq<Purchase>, ps': seq<Purchase>, name: string, after: int)
    requires |ps| == |ps'| && forall i :: 0 <= i < |ps| ==> ps'[i] == ps[i].(purchasedAt := ps'[i].purchasedAt)
    ensures Since(ps', name, after) == Since(ps, name, after)
  {
    if ps != [] {
      LaterDates(ps[..|ps| - 1], ps'[..|ps| - 1], name, after);
    }
  }

  // ----- the summary agrees with the money spent -----

  lemma SumsSnoc(ps: seq<Purchase>, p: Purchase)
    ensures Spent(ps + [p]) == Spent(ps) + CostOf(p) && Bought(ps + [p]) == Bought(ps) + p.qty
    ensures ps + [] == ps
  {
    assert (ps + [p])[..|ps|] == ps;
  }

  predicate NoRepeats(names: seq<string>) {
    forall i, j :: 0 <= i < j < |names| ==> names[i] != names[j]
  }

  // The names on the inventory list: every name key of a purchase, once.
  ghost predicate IsListing(names: seq<string>, ps: seq<Purchase>) {
    NoRepeats(names) && forall i :: 0 <= i < |ps| ==> ps[i].nameKey in names
  }

  function SpentOver(names: seq<string>, ps: seq<Purchase>): int {
    if names == [] then 0 else SpentOver(names[..|names| - 1], ps) + Spent(Of(ps, names[|names| - 1]))
  }

  function BoughtOver(names: seq<string>, ps: seq<Purchase>): int {
    if names == [] then 0 else BoughtOver(names[..|names| - 1], ps) + Bought(Of(ps, names[|names| - 1]))
  }

  lemma {:induction false} GroupsSnoc(names: seq<string>, ps: seq<Purchase>, p: Purchase)
    requires NoRepeats(names)
    ensures SpentOver(names, ps + [p]) == SpentOver(names, ps) + if p.nameKey in names then CostOf(p) else 0
    ensures BoughtOver(names, ps + [p]) == BoughtOver(names, ps) + if p.nameKey in names then p.qty else 0
  {
    if names != [] {
      var init, name := names[..|names| - 1], names[|names| - 1];
      GroupsSnoc(init, ps, p);
      assert names == init + [name];
      assert (ps + [p])[..|ps|] == ps;
      SumsSnoc(Of(ps, name), p);
    }
  }

  lemma {:induction false} NothingGrouped(names: seq<string>)
    ensures SpentOver(names, []) == 0 && BoughtOver(names, []) == 0
  {
    if names != [] {
      NothingGrouped(names[..|names| - 1]);
    }
  }

  lemma ListingOfPrefix(names: seq<string>, ps: seq<Purchase>)
    requires ps != [] && IsListing(names, ps)
    ensures IsListing(names, ps[..|ps| - 1]) && ps[|ps| - 1].nameKey in names
  {
    var init := ps[..|ps| - 1];
    assert forall i :: 0 <= i < |init| ==> init[i] == ps[i];
  }

  /** However purchases fall into name keys, the groups add up to all that was spent and bought. */
  lemma {:induction false} Grouped(names: seq<string>, ps: seq<Purchase>)
    requires IsListing(names, ps)
    ensures SpentOver(names, ps) == Spent(ps) && BoughtOver(names, ps) == Bought(ps)
  {
    if ps == [] {
      NothingGrouped(names);
    } else {
      var init, p := ps[..|ps| - 1], ps[|ps| - 1];
      ListingOfPrefix(names, ps);
      Grouped(names, init);
      GroupsSnoc(names, init, p);
      SplitLast(ps);
    }
  }

  /** Spending over adjacent periods adds up: every purchase falls in exactly one of them. */
  lemma {:induction false} SpendingSplits(ps: seq<Purchase>, a: int, b: int, c: int)
    requires a <= b <= c
    ensures SpentIn(ps, a, c) == SpentIn(ps, a, b) + SpentIn(ps, b, c)
  {
    if ps != [] {
      SpendingSplits(ps[..|ps| - 1], a, b, c);
    }
  }

  // The purchases of a period.
  function During(ps: seq<Purchase>, from: int, to: int): seq<Purchase> {
    if ps == [] then []
    else
      var p := ps[|ps| - 1];
      During(ps[..|ps| - 1], from, to) + if from <= p.purchasedAt && p.purchasedAt < to then [p] else []
  }

  lemma {:induction false} DuringAre(ps: seq<Purchase>, from: int, to: int, p: Purchase)
    ensures multiset(During(ps, from, to))[p] == if from <= p.purchasedAt && p.purchasedAt < to then multiset(ps)[p] else 0
  {
    if ps != [] {
      DuringAre(ps[..|ps| - 1], from, to, p);
      SplitLast(ps);
    }
  }

  lemma {:induction false} DuringAllValid(ps: seq<Purchase>, from: int, to: int)
    requires AllValid(ps)
    ensures AllValid(During(ps, from, to))
  {
    if ps != [] {
      DuringAllValid(ps[..|ps| - 1], from, to);
    }
  }

  lemma {:induction false} SpentDuring(ps: seq<Purchase>, from: int, to: int)
    ensures SpentIn(ps, from, to) == Spent(During(ps, from, to))
  {
    if ps != [] {
      SpentDuring(ps[..|ps| - 1], from, to);
      SumsSnoc(During(ps[..|ps| - 1], from, to), ps[|ps| - 1]);
    }
  }

  /** The spending of a period is what its goods cost piece by piece and its shipping, over exactly
      the purchases of the period, each once. */
  lemma PeriodIsGoodsAndShipping(ps: seq<Purchase>, from: int, to: int)
    requires AllValid(ps)
    ensures var within := During(ps, from, to);
            && AllValid(within) && SpentIn(ps, from, to) == Goods(within) + Shipping(within)
            && forall p: Purchase :: multiset(within)[p] == if from <= p.purchasedAt < to then multiset(ps)[p] else 0
  {
    var within := During(ps, from, to);
    forall p: Purchase
      ensures multiset(within)[p] == if from <= p.purchasedAt < to then multiset(ps)[p] else 0
    {
      DuringAre(ps, from, to, p);
    }
    DuringAllValid(ps, from, to);
    SpentDuring(ps, from, to);
    SpentIsGoodsAndShipping(within);
  }

  lemma {:induction false} AllInPeriod(ps: seq<Purchase>, from: int, to: int)
    requires forall i :: 0 <= i < |ps| ==> from <= ps[i].purchasedAt < to
    ensures SpentIn(ps, from, to) == Spent(ps)
  {
    if ps != [] {
      AllInPeriod(ps[..|ps| - 1], from, to);
    }
  }

  lemma RowWorth(b: Books, name: string)
    requires AllValid(b.purchases)
    requires OnHand(b, name) <= Bought(Of(b.purchases, name))
    ensures RowOf(b, name).value <= Spent(Of(b.purchases, name)) && Spent(Of(b.purchases, name)) >= 0
    ensures OnHand(b, name) == Bought(Of(b.purchases, name)) && OnHand(b, name) > 0 ==>
              RowOf(b, name).value == Spent(Of(b.purchases, name))
    ensures OnHand(b, name) == Bought(Of(b.purchases, name)) && OnHand(b, name) <= 0 ==>
              Spent(Of(b.purchases, name)) == 0 == OnHand(b, name)
  {
    var ps := Of(b.purchases, name);
    OfAllValid(b.purchases, name);
    SumsAreNatural(ps);
    if Bought(ps) > 0 {
      ValueAtMostSpent(Spent(ps), Bought(ps), OnHand(b, name));
    }
  }

  /** The average on an item's row lies between the rounded unit costs of two of its purchases. */
  lemma RowAverage(b: Books, name: string)
    requires AllValid(b.purchases) && Known(b.purchases, name)
    ensures exists p, q :: p in b.purchases && q in b.purchases && p.nameKey == name == q.nameKey
                           && UnitCostOf(p) <= RowOf(b, name).avgUnitCost <= UnitCostOf(q)
  {
    var ps := Of(b.purchases, name);
    OfAllValid(b.purchases, name);
    OfAre(b.purchases, name);
    SumsAreNatural(ps);
    var i, j := Extremes(ps);
    AverageWithinBounds(ps, UnitCostOf(ps[i]), UnitCostOf(ps[j]));
    assert ps[i] in ps && ps[j] in ps;
  }

  lemma {:induction false} OfMultiset(ps: seq<Purchase>, name: string, p: Purchase)
    ensures multiset(Of(ps, name))[p] == if p.nameKey == name then multiset(ps)[p] else 0
  {
    if ps != [] {
      OfMultiset(ps[..|ps| - 1], name, p);
      SplitLast(ps);
    }
  }

  // d is n-ths of an amount, to the nearest whole number, upwards in the middle.
  predicate Nearest(d: int, amount: int, n: int) {
    -n < 2 * (d * n - amount) <= n
  }

  /** An item's row counts its own purchases, each once; its average is the cost per piece of their
      goods and shipping and its value the share on hand of that, both to the nearest won; nothing
      on hand is worth nothing. */
  lemma RowExactly(b: Books, name: string)
    requires AllValid(b.purchases) && Known(b.purchases, name)
    ensures var ps, row := Of(b.purchases, name), RowOf(b, name);
            && (forall p: Purchase :: multiset(ps)[p] == if p.nameKey == name then multiset(b.purchases)[p] else 0)
            && row.purchases == |ps| && row.bought == Bought(ps) && row.bought > 0 && AllValid(ps)
            && Nearest(row.avgUnitCost, Goods(ps) + Shipping(ps), row.bought)
            && if row.onHand > 0 then Nearest(row.value, (Goods(ps) + Shipping(ps)) * row.onHand, row.bought)
               else row.value == 0
  {
    var ps, row := Of(b.purchases, name), RowOf(b, name);
    forall p: Purchase
      ensures multiset(ps)[p] == if p.nameKey == name then multiset(b.purchases)[p] else 0
    {
      OfMultiset(b.purchases, name, p);
    }
    OfAllValid(b.purchases, name);
    SumsAreNatural(ps);
    SpentIsGoodsAndShipping(ps);
    ShareIsNearest(Spent(ps), row.bought, row.onHand);
  }

  lemma ShareIsNearest(spent: int, bought: int, onHand: int)
    requires spent >= 0 && bought > 0
    ensures Nearest(AverageCost(spent, bought), spent, bought)
    ensures onHand > 0 ==> Nearest(StockValue(spent, bought, onHand), spent * onHand, bought)
  {
    NearestCost(spent, bought, AverageCost(spent, bought));
    if onHand > 0 {
      MulNatural(spent, onHand);
      NearestCost(spent * onHand, bought, StockValue(spent, bought, onHand));
    }
  }

  /** An accepted purchase adds itself to its own row, and shows there as the last one exactly if it
      is the first or newer than the one shown; no other row moves. */
  lemma PurchaseMovesRow(b: Books, p: Purchase, name: string)
    requires Accepted(b, Submit(p))
    ensures var row, row' := RowOf(b, name), RowOf(Next(b, Submit(p)), name);
            var last := LastOf(b.purchases, name);
            if p.nameKey != name then row' == row
            else
              && row'.nameKey == name && row'.purchases == row.purchases + 1 && row'.bought == row.bought + p.qty
              && (row'.lastAt, row'.lastVendor, row'.lastUnitCost) ==
                 if last.None? || Newer(p, last.value) then (p.purchasedAt, p.vendor, UnitCostOf(p))
                 else (row.lastAt, row.lastVendor, row.lastUnitCost)
  {
    var ps := b.purchases;
    TakeSnoc(ps, p);
    EmptyTail(Of(ps, name));
    SumsSnoc(Of(ps, name), p);
  }

  lemma {:induction false} SummaryAtMostGroups(b: Books, names: seq<string>)
    requires AllValid(b.purchases)
    requires forall i :: 0 <= i < |names| ==> OnHand(b, names[i]) <= Bought(Of(b.purchases, names[i]))
    ensures ValueOver(b, names) <= SpentOver(names, b.purchases)
    ensures (forall i :: 0 <= i < |names| ==> OnHand(b, names[i]) == Bought(Of(b.purchases, names[i]))) ==>
              ValueOver(b, names) == SpentOver(names, b.purchases)
              && OnHandOver(b, names) == BoughtOver(names, b.purchases)
  {
    if names != [] {
      var init := names[..|names| - 1];
      assert forall i :: 0 <= i < |init| ==> init[i] == names[i];
      SummaryAtMostGroups(b, init);
      RowWorth(b, names[|names| - 1]);
    }
  }

  /** With nothing counted yet and a period that covers every purchase, the two figures on the
      screen - money spent and value of the stock - are the same to the won, for any grouping. */
  lemma UnsoldStockIsWorthSpent(b: Books, names: seq<string>, from: int, to: int)
    requires AllValid(b.purchases) && IsListing(names, b.purchases) && b.counts == []
    requires forall i :: 0 <= i < |b.purchases| ==> from <= b.purchases[i].purchasedAt < to
    ensures ValueOver(b, names) == SpentIn(b.purchases, from, to)
    ensures OnHandOver(b, names) == Bought(b.purchases)
  {
    SummaryAtMostGroups(b, names);
    Grouped(names, b.purchases);
    AllInPeriod(b.purchases, from, to);
  }

  /** With no item above what was bought of it, the stock is worth at most what was spent. */
  lemma StockAtMostSpent(b: Books, names: seq<string>)
    requires AllValid(b.purchases) && IsListing(names, b.purchases)
    requires forall i :: 0 <= i < |names| ==> OnHand(b, names[i]) <= Bought(Of(b.purchases, names[i]))
    ensures ValueOver(b, names) <= Spent(b.purchases)
  {
    SummaryAtMostGroups(b, names);
    Grouped(names, b.purchases);
  }

  // ----- name keys (internal/domain/purchase.go) -----

  function KeyOf(name: string, isSpace: char -> bool, toLower: char -> char): string {
    if name == "" then ""
    else
      var c := name[|name| - 1];
      KeyOf(name[..|name| - 1], isSpace, toLower) + if isSpace(c) then [] else [toLower(c)]
  }

  method NameKey(name: string, isSpace: char -> bool, toLower: char -> char) returns (key: string)
    ensures key == KeyOf(name, isSpace, toLower)
  {
    key := "";
    for i := 0 to |name|
      invariant key == KeyOf(name[..i], isSpace, toLower)
    {
      assert name[..i + 1][..i] == name[..i];
      if !isSpace(name[i]) {
        key := key + [toLower(name[i])];
      }
    }
    assert name[..|name|] == name;
  }

  lemma {:induction false} KeyConcat(a: string, b: string, isSpace: char -> bool, toLower: char -> char)
    ensures KeyOf(a + b, isSpace, toLower) == KeyOf(a, isSpace, toLower) + KeyOf(b, isSpace, toLower)
  {
    if b == "" {
      assert a + b == a;
    } else {
      var init, c := b[..|b| - 1], b[|b| - 1];
      KeyConcat(a, init, isSpace, toLower);
      assert (a + b)[..|a + b| - 1] == a + init && (a + b)[|a + b| - 1] == c;
      var last: string := if isSpace(c) then [] else [toLower(c)];
      assert KeyOf(a + b, isSpace, toLower) == KeyOf(a, isSpace, toLower) + KeyOf(init, isSpace, toLower) + last;
    }
  }

  lemma {:induction false} SpacesVanish(s: string, isSpace: char -> bool, toLower: char -> char)
    requires forall i :: 0 <= i < |s| ==> isSpace(s[i])
    ensures KeyOf(s, isSpace, toLower) == ""
  {
    if s != "" {
      SpacesVanish(s[..|s| - 1], isSpace, toLower);
    }
  }

  /** Spacing never splits an item in two: blanks put anywhere leave the key as it was. */
  lemma SpacingDoesNotMatter(a: string, blanks: string, b: string, isSpace: char -> bool, toLower: char -> char)
    requires forall i :: 0 <= i < |blanks| ==> isSpace(blanks[i])
    ensures KeyOf(a + blanks + b, isSpace, toLower) == KeyOf(a + b, isSpace, toLower)
  {
    var key := KeyOf(a, isSpace, toLower);
    SpacesVanish(blanks, isSpace, toLower);
    assert KeyOf(a + blanks, isSpace, toLower) == key by {
      KeyConcat(a, blanks, isSpace, toLower);
      assert key + "" == key;
    }
    KeyConcat(a + blanks, b, isSpace, toLower);
    KeyConcat(a, b, isSpace, toLower);
  }

  // The places of the letters of a name, in order.
  ghost predicate Letters(at: seq<nat>, name: string, isSpace: char -> bool) {
    && (forall k :: 0 <= k < |at| ==> at[k] < |name| && !isSpace(name[at[k]]))
    && (forall j, k :: 0 <= j < k < |at| ==> at[j] < at[k])
    && (forall i :: 0 <= i < |name| && !isSpace(name[i]) ==> i in at)
  }

  lemma LettersBefore(at: seq<nat>, name: string, isSpace: char -> bool)
    requires name != "" && Letters(at, name, isSpace)
    ensures var n := |name| - 1;
            if isSpace(name[n]) then Letters(at, name[..n], isSpace)
            else at != [] && at[|at| - 1] == n && Letters(at[..|at| - 1], name[..n], isSpace)
  {
    var n := |name| - 1;
    if !isSpace(name[n]) {
      var init := at[..|at| - 1];
      assert at[|at| - 1] == n;
      forall i | 0 <= i < n && !isSpace(name[i])
        ensures i in init
      {
        var k :| 0 <= k < |at| && at[k] == i;
        assert init[k] == i;
      }
    }
  }

  // The key read along the places.
  ghost predicate Along(key: string, at: seq<nat>, name: string, toLower: char -> char) {
    |key| == |at| && forall k :: 0 <= k < |at| ==> at[k] < |name| && key[k] == toLower(name[at[k]])
  }

  lemma AlongSnoc(key: string, at: seq<nat>, name: string, c: char, toLower: char -> char)
    requires Along(key, at, name, toLower)
    ensures Along(key, at, name + [c], toLower)
    ensures Along(key + [toLower(c)], at + [|name|], name + [c], toLower)
  {
  }

  lemma NoLetters(at: seq<nat>, isSpace: char -> bool)
    ensures Letters(at, "", isSpace) ==> at == []
  {
    assert at != [] ==> at[0] >= |""|;
  }

  /** A key is the name's letters in lower case, in order, whatever stands between them. */
  lemma {:induction false} KeyIsLetters(at: seq<nat>, name: string, isSpace: char -> bool, toLower: char -> char)
    requires Letters(at, name, isSpace)
    ensures Along(KeyOf(name, isSpace, toLower), at, name, toLower)
    decreases |name|
  {
    if name == "" {
      NoLetters(at, isSpace);
    } else {
      var init, c := name[..|name| - 1], name[|name| - 1];
      var before := if isSpace(c) then at else at[..|at| - 1];
      LettersBefore(at, name, isSpace);
      KeyIsLetters(before, init, isSpace, toLower);
      SplitLast(name);
      KeyIsLettersSnoc(before, init, c, isSpace, toLower);
      if !isSpace(c) {
        SplitLast(at);
      }
    }
  }

  lemma {:induction false} KeyIsLettersSnoc(at: seq<nat>, name: string, c: char, isSpace: char -> bool, toLower: char -> char)
    requires Along(KeyOf(name, isSpace, toLower), at, name, toLower)
    ensures Along(KeyOf(name + [c], isSpace, toLower), if isSpace(c) then at else at + [|name|], name + [c], toLower)
  {
    var key := KeyOf(name, isSpace, toLower);
    TakeSnoc(name, c);
    EmptyTail(key);
    AlongSnoc(key, at, name, c, toLower);
  }

  lemma {:induction false} LettersExist(name: string, isSpace: char -> bool) returns (at: seq<nat>)
    ensures Letters(at, name, isSpace)
  {
    at := [];
    if name != "" {
      var n := |name| - 1;
      var before := LettersExist(name[..n], isSpace);
      at := before + if isSpace(name[n]) then [] else [n];
      assert forall i :: 0 <= i < n && !isSpace(name[i]) ==> name[..n][i] == name[i] && i in before;
    }
  }

  /** Two names are one item exactly if they have equally many letters and these agree in order but
      for their case. */
  lemma OneItemExactly(a: string, b: string, at: seq<nat>, bt: seq<nat>, isSpace: char -> bool, toLower: char -> char)
    requires Letters(at, a, isSpace) && Letters(bt, b, isSpace)
    ensures KeyOf(a, isSpace, toLower) == KeyOf(b, isSpace, toLower) <==>
            |at| == |bt| && forall k :: 0 <= k < |at| ==> toLower(a[at[k]]) == toLower(b[bt[k]])
  {
    KeyIsLetters(at, a, isSpace, toLower);
    KeyIsLetters(bt, b, isSpace, toLower);
  }
}
