/** Search-trend requests (internal/domain/character.go): the watch list is cut into requests that
    all carry one anchor, and figures are divided by the anchor's to be on one scale. Figures are
    real numbers here. */
module Trend {
  import opened Common
  import opened Sequences

  datatype Character = Character(code: string, name: string)

  const GROUPS_PER_REQUEST := 5
  const PER_BATCH := GROUPS_PER_REQUEST - 1

  function Rest(list: seq<Character>, anchor: Character): seq<Character> {
    if list == [] then []
    else
      var c := list[|list| - 1];
      Rest(list[..|list| - 1], anchor) + if c.code != anchor.code then [c] else []
  }

  function Min(a: int, b: int): int {
    if a < b then a else b
  }

  function Batches(rest: seq<Character>, anchor: Character): seq<seq<Character>> {
    if rest == [] then []
    else
      var n := Min(PER_BATCH, |rest|);
      [[anchor] + rest[..n]] + Batches(rest[n..], anchor)
  }

  method TrendBatches(list: seq<Character>, anchor: Character) returns (out: seq<seq<Character>>)
    ensures out == Batches(Rest(list, anchor), anchor)
  {
    var rest: seq<Character> := [];
    for i := 0 to |list|
      invariant rest == Rest(list[..i], anchor)
    {
      assert list[..i + 1][..i] == list[..i];
      EmptyTail(rest);
      if list[i].code != anchor.code {
        rest := rest + [list[i]];
      }
    }
    assert list[..|list|] == list;
    if |rest| == 0 {
      return [];
    }
    out := [];
    var i := 0;
    assert rest[0..] == rest;
    while i < |rest|
      invariant 0 <= i
      invariant out + Batches(rest[Min(i, |rest|)..], anchor) == Batches(rest, anchor)
      decreases |rest| - i
    {
      var end := Min(i + PER_BATCH, |rest|);
      var batch := [anchor] + rest[i..end];
      NextBatch(rest, anchor, i);
      Associative(out, [batch], Batches(rest[end..], anchor));
      out := out + [batch];
      i := i + PER_BATCH;
    }
    assert rest[|rest|..] == [];
    EmptyTail(out);
  }

  lemma NextBatch(rest: seq<Character>, anchor: Character, i: nat)
    requires i < |rest|
    ensures var end := Min(i + PER_BATCH, |rest|);
            Batches(rest[i..], anchor) == [[anchor] + rest[i..end]] + Batches(rest[end..], anchor)
  {
    var end := Min(i + PER_BATCH, |rest|);
    assert rest[i..][..end - i] == rest[i..end] && rest[i..][end - i..] == rest[end..];
  }

  function Tails(batches: seq<seq<Character>>): seq<Character> {
    if batches == [] then []
    else (if batches[0] == [] then [] else batches[0][1..]) + Tails(batches[1..])
  }

  /** Dropping the anchor keeps the order: it can be done part by part. */
  lemma {:induction false} RestConcat(a: seq<Character>, b: seq<Character>, anchor: Character)
    ensures Rest(a + b, anchor) == Rest(a, anchor) + Rest(b, anchor)
  {
    if b == [] {
      EmptyTail(a);
      EmptyTail(Rest(a, anchor));
    } else {
      var init, c := b[..|b| - 1], b[|b| - 1];
      RestConcat(a, init, anchor);
      ConcatLast(a, b);
      TakeSnoc(a + init, c);
      Associative(Rest(a, anchor), Rest(init, anchor), if c.code != anchor.code then [c] else []);
    }
  }

  /** Dropping the anchor loses nothing else: every character with another code stays as often as it
      was listed. */
  lemma {:induction false} RestKeepsOthers(list: seq<Character>, anchor: Character, c: Character)
    ensures multiset(Rest(list, anchor))[c] == if c.code == anchor.code then 0 else multiset(list)[c]
  {
    if list != [] {
      RestKeepsOthers(list[..|list| - 1], anchor, c);
      SplitLast(list);
    }
  }

  /** Every request begins with the anchor, holds two to five characters and, all but the last,
      exactly five; the rest of the requests, put together, are the list without the anchor. */
  lemma {:induction false} BatchesCover(rest: seq<Character>, anchor: Character)
    ensures Tails(Batches(rest, anchor)) == rest
    ensures forall i :: 0 <= i < |Batches(rest, anchor)| ==>
              var b := Batches(rest, anchor)[i];
              2 <= |b| <= 5 && b[0] == anchor
              && (i < |Batches(rest, anchor)| - 1 ==> |b| == 5)
    ensures |Batches(rest, anchor)| == (|rest| + 3) / 4
  {
    if rest != [] {
      var n := Min(PER_BATCH, |rest|);
      var more := Batches(rest[n..], anchor);
      BatchesCover(rest[n..], anchor);
      var all := Batches(rest, anchor);
      assert all[0] == [anchor] + rest[..n] && all[1..] == more;
      assert all[0][1..] == rest[..n];
      assert rest[..n] + rest[n..] == rest;
      assert forall i :: 1 <= i < |all| ==> all[i] == more[i - 1];
    }
  }

  /** The anchor is in each request once, at its head: nothing else there has its code. */
  lemma {:induction false} AnchorOnce(list: seq<Character>, anchor: Character)
    ensures forall c :: c in Rest(list, anchor) ==> c.code != anchor.code
    ensures forall b: seq<Character>, k :: b in Batches(Rest(list, anchor), anchor) && 1 <= k < |b| ==> b[k].code != anchor.code
  {
    RestHasNoAnchor(list, anchor);
    TailsFromRest(Rest(list, anchor), anchor);
  }

  lemma {:induction false} RestHasNoAnchor(list: seq<Character>, anchor: Character)
    ensures forall c :: c in Rest(list, anchor) ==> c.code != anchor.code
  {
    if list != [] {
      RestHasNoAnchor(list[..|list| - 1], anchor);
    }
  }

  lemma {:induction false} TailsFromRest(rest: seq<Character>, anchor: Character)
    ensures forall b: seq<Character>, k :: b in Batches(rest, anchor) && 1 <= k < |b| ==> b[k] in rest
  {
    if rest != [] {
      var n := Min(PER_BATCH, |rest|);
      TailsFromRest(rest[n..], anchor);
      forall b: seq<Character>, k | b in Batches(rest, anchor) && 1 <= k < |b|
        ensures b[k] in rest
      {
        if b == [anchor] + rest[..n] {
          assert b[k] == rest[k - 1];
        } else {
          assert b in Batches(rest[n..], anchor);
          assert b[k] in rest[n..];
        }
      }
    }
  }

  // ----- one scale -----

  datatype TrendError = AnchorIsZero

  function Normalized(anchorRatio: real, ratios: map<string, real>): Result<map<string, real>, TrendError> {
    if anchorRatio <= 0.0 then Err(AnchorIsZero) else Ok(map c | c in ratios :: ratios[c] / anchorRatio)
  }

  method NormalizeTrend(anchorRatio: real, ratios: map<string, real>) returns (r: Result<map<string, real>, TrendError>)
    ensures r == Normalized(anchorRatio, ratios)
  {
    if anchorRatio <= 0.0 {
      return Err(AnchorIsZero);
    }
    var out: map<string, real> := map[];
    var left := ratios.Keys;
    while left != {}
      invariant left <= ratios.Keys
      invariant out == map c | c in ratios && c !in left :: ratios[c] / anchorRatio
      decreases |left|
    {
      var c :| c in left;
      out := out[c := ratios[c] / anchorRatio];
      left := left - {c};
    }
    assert out == map c | c in ratios :: ratios[c] / anchorRatio;
    return Ok(out);
  }

  // What one request reports: searches times a factor of its own.
  ghost predicate Reports(ratios: map<string, real>, anchorRatio: real, searches: map<string, real>, anchor: real, scale: real) {
    anchorRatio == scale * anchor
    && forall c :: c in ratios ==> c in searches && ratios[c] == scale * searches[c]
  }

  lemma Ratio(scale: real, x: real, a: real)
    requires scale > 0.0 && a > 0.0
    ensures scale * a > 0.0 && (scale * x) / (scale * a) == x / a
  {
  }

  lemma RatioOrder(x: real, y: real, a: real)
    requires a > 0.0
    ensures x / a <= y / a <==> x <= y
  {
  }

  /** Whatever factors two requests were scaled by, after division by the anchor their figures are
      on one scale: searches per search of the anchor, in the order of the searches themselves. A
      request whose anchor shows nothing is refused. */
  lemma OneScale(r1: map<string, real>, a1: real, k1: real, r2: map<string, real>, a2: real, k2: real,
                 searches: map<string, real>, anchor: real, c: string, d: string)
    requires Reports(r1, a1, searches, anchor, k1) && Reports(r2, a2, searches, anchor, k2)
    requires k1 > 0.0 && k2 > 0.0 && c in r1 && d in r2
    ensures Normalized(a1, r1).Ok? <==> anchor > 0.0
    ensures anchor > 0.0 ==>
              Normalized(a2, r2).Ok?
              && Normalized(a1, r1).value[c] == searches[c] / anchor
              && Normalized(a2, r2).value[d] == searches[d] / anchor
              && (Normalized(a1, r1).value[c] <= Normalized(a2, r2).value[d] <==> searches[c] <= searches[d])
  {
    SignKept(k1, anchor);
    SignKept(k2, anchor);
    if anchor > 0.0 {
      Ratio(k1, searches[c], anchor);
      Ratio(k2, searches[d], anchor);
      RatioOrder(searches[c], searches[d], anchor);
    }
  }

  lemma SignKept(k: real, a: real)
    requires k > 0.0
    ensures k * a > 0.0 <==> a > 0.0
  {
  }
}
