/**
 * The manager's corrections: kept, selected for a later plan, marked applied and retired (convex/corrections.ts,
 * src/work/corrections.ts).
 */
module Corrections {
  import opened Prelude
  import opened Rejections

  datatype Kind = RetryNote | RejectedActions | RejectedPlan

  /** A row of the table; its id is its place, in the order the rows were kept. */
  datatype Correction = Correction(
    agent: nat, item: nat, kind: Kind, text: string, category: string, surfaces: seq<string>,
    createdAt: Time, retiredAt: Option<Time>, appliedTo: seq<nat>)

  /** Who a plan is drafted for, and what a correction has to share with it. */
  datatype Candidate = Candidate(agent: nat, category: string, slug: string)

  const CORRECTIONS_MAX: nat := 5
  const CORRECTIONS_MAX_CHARS: nat := 3000
  const CORRECTIONS_READ: nat := 200

  /** What keeping words only when they are not blank gives every row. */
  predicate Worded(rows: seq<Correction>) {
    forall row <- rows :: !Blank(row.text)
  }

  predicate Matches(row: Correction, candidate: Candidate) {
    row.category == candidate.category || candidate.slug in row.surfaces
  }

  predicate Active(row: Correction, agent: nat) {
    row.agent == agent && row.retiredAt.None?
  }

  // ---------------------------------------------------------------- newest first

  /** The index's order: newer first, and the later row first among equals. */
  predicate Newer(rows: seq<Correction>, a: nat, b: nat) {
    && a < |rows|
    && b < |rows|
    && (rows[a].createdAt > rows[b].createdAt || (rows[a].createdAt == rows[b].createdAt && a > b))
  }

  predicate Rows(rows: seq<Correction>, ids: seq<nat>) {
    forall j :: 0 <= j < |ids| ==> ids[j] < |rows|
  }

  predicate NewestFirst(rows: seq<Correction>, order: seq<nat>) {
    && Rows(rows, order)
    && forall j, k :: 0 <= j < k < |order| ==> Newer(rows, order[j], order[k])
  }

  function Among(rows: seq<Correction>, order: seq<nat>, i: nat): (r: seq<nat>)
    requires NewestFirst(rows, order) && i < |rows| && i !in order
    ensures NewestFirst(rows, r) && forall x :: x in r <==> x == i || x in order
  {
    if order == [] then [i]
    else if Newer(rows, i, order[0]) then [i] + order
    else
      assert Newer(rows, order[0], i) by { assert order[0] in order; }
      var r := Among(rows, order[1..], i);
      assert forall x <- r :: Newer(rows, order[0], x) by {
        forall x | x in r ensures Newer(rows, order[0], x) {
          if x != i { var k :| 0 <= k < |order[1..]| && order[1..][k] == x; assert order[k + 1] == x; }
        }
      }
      assert forall x :: x in order <==> x == order[0] || x in order[1..];
      [order[0]] + r
  }

  /** An employee's active corrections among the first `n` rows, as the index gives them. */
  function ActiveNewest(rows: seq<Correction>, agent: nat, n: nat): (r: seq<nat>)
    requires n <= |rows|
    ensures NewestFirst(rows, r) && forall i: nat :: i in r <==> i < n && Active(rows[i], agent)
  {
    if n == 0 then []
    else if Active(rows[n - 1], agent) then Among(rows, ActiveNewest(rows, agent, n - 1), n - 1)
    else ActiveNewest(rows, agent, n - 1)
  }

  // ---------------------------------------------------------------- the scan under its two budgets

  function Chars(rows: seq<Correction>, ids: seq<nat>): nat
    requires Rows(rows, ids)
  {
    if ids == [] then 0 else |rows[ids[0]].text| + Chars(rows, ids[1..])
  }

  /** The scan from here on, with room for that many characters and that many rows. */
  function Scan(
      rows: seq<Correction>, order: seq<nat>, candidate: Candidate, shared: Option<nat>, room: nat, left: nat): seq<nat>
    requires Rows(rows, order)
  {
    if order == [] || left == 0 || room == 0 then []
    else
      var i := order[0];
      if Some(i) == shared || !Matches(rows[i], candidate) || |rows[i].text| > room then
        Scan(rows, order[1..], candidate, shared, room, left)
      else
        [i] + Scan(rows, order[1..], candidate, shared, room - |rows[i].text|, left - 1)
  }

  /** One row of the scan. */
  lemma ScanStep(
      rows: seq<Correction>, order: seq<nat>, i: nat, candidate: Candidate, shared: Option<nat>, room: nat, left: nat)
    requires Rows(rows, order) && i < |order| && left > 0 && room > 0
    ensures
      Scan(rows, order[i..], candidate, shared, room, left) ==
        if Some(order[i]) == shared || !Matches(rows[order[i]], candidate) || |rows[order[i]].text| > room then
          Scan(rows, order[i + 1..], candidate, shared, room, left)
        else [order[i]] + Scan(rows, order[i + 1..], candidate, shared, room - |rows[order[i]].text|, left - 1)
  {
    assert order[i..][1..] == order[i + 1..] && order[i..][0] == order[i];
  }

  function Selected(rows: seq<Correction>, candidate: Candidate, shared: Option<nat>): seq<nat>
    requires shared.Some? ==> shared.value < |rows|
  {
    var order := ActiveNewest(rows, candidate.agent, |rows|);
    if shared.Some? && |rows[shared.value].text| <= CORRECTIONS_MAX_CHARS then
      [shared.value] + Scan(rows, order, candidate, shared, CORRECTIONS_MAX_CHARS - |rows[shared.value].text|,
        CORRECTIONS_MAX - 1)
    else Scan(rows, order, candidate, shared, CORRECTIONS_MAX_CHARS, CORRECTIONS_MAX)
  }

  /** The chosen ones newer than a row. */
  function NewerThan(rows: seq<Correction>, chosen: seq<nat>, i: nat): (r: seq<nat>)
    ensures Rows(rows, r)
  {
    var r := Filter(chosen, j => Newer(rows, j, i));
    assert forall k :: 0 <= k < |r| ==> r[k] in r;
    r
  }

  /** Whether a row would still be taken behind those chosen before it. */
  predicate Fits(rows: seq<Correction>, before: seq<nat>, i: nat, room: nat, left: nat)
    requires i < |rows| && Rows(rows, before)
  {
    |before| < left && Chars(rows, before) + |rows[i].text| <= room
  }

  lemma {:induction false} NoneNewer(rows: seq<Correction>, chosen: seq<nat>, i: nat)
    requires forall j <- chosen :: !Newer(rows, j, i)
    ensures NewerThan(rows, chosen, i) == []
  {
    if chosen != [] {
      NoneNewer(rows, chosen[1..], i);
    }
  }

  lemma NewerThanHead(rows: seq<Correction>, head: nat, tail: seq<nat>, i: nat)
    requires Newer(rows, head, i)
    ensures NewerThan(rows, [head] + tail, i) == [head] + NewerThan(rows, tail, i)
  {
    assert ([head] + tail)[1..] == tail;
  }

  /**
   * What a choice from an order is: within both budgets, newest first, matching, and leaving a matching row out only
   * when it does not fit behind the newer ones chosen.
   */
  ghost predicate Best(
      rows: seq<Correction>, order: seq<nat>, candidate: Candidate, shared: Option<nat>, room: nat, left: nat,
      r: seq<nat>) {
    && NewestFirst(rows, r) && |r| <= left && Chars(rows, r) <= room
    && (forall i <- r :: i in order && Matches(rows[i], candidate) && Some(i) != shared)
    && forall i <- order | i < |rows| && Matches(rows[i], candidate) && Some(i) != shared ::
        i in r <==> Fits(rows, NewerThan(rows, r, i), i, room, left)
  }

  lemma HeadIsNewest(rows: seq<Correction>, order: seq<nat>)
    requires NewestFirst(rows, order) && order != []
    ensures forall i <- order[1..] :: Newer(rows, order[0], i)
  {
    forall i | i in order[1..]
      ensures Newer(rows, order[0], i)
    {
      var k :| 0 <= k < |order[1..]| && order[1..][k] == i;
      assert order[k + 1] == i;
    }
  }

  lemma BestOfNothing(
      rows: seq<Correction>, order: seq<nat>, candidate: Candidate, shared: Option<nat>, room: nat, left: nat)
    requires NewestFirst(rows, order) && Worded(rows) && (order == [] || left == 0 || room == 0)
    ensures Best(rows, order, candidate, shared, room, left, [])
  {
    forall i | i in order
      ensures !Fits(rows, NewerThan(rows, [], i), i, room, left)
    {
      assert rows[i] in rows && !Blank(rows[i].text);
    }
  }

  /** The scan under its two budgets makes such a choice. */
  lemma {:induction false} ScanIsBest(
      rows: seq<Correction>, order: seq<nat>, candidate: Candidate, shared: Option<nat>, room: nat, left: nat)
    requires NewestFirst(rows, order) && Worded(rows)
    ensures Best(rows, order, candidate, shared, room, left, Scan(rows, order, candidate, shared, room, left))
  {
    if order == [] || left == 0 || room == 0 {
      BestOfNothing(rows, order, candidate, shared, room, left);
    } else {
      var head, tail := order[0], order[1..];
      HeadIsNewest(rows, order);
      assert order == [head] + tail;
      var r := Scan(rows, order, candidate, shared, room, left);
      if Some(head) == shared || !Matches(rows[head], candidate) || |rows[head].text| > room {
        assert r == Scan(rows, tail, candidate, shared, room, left);
        ScanIsBest(rows, tail, candidate, shared, room, left);
        BestSkips(rows, head, tail, candidate, shared, room, left, r);
      } else {
        var less := room - |rows[head].text|;
        var rest := Scan(rows, tail, candidate, shared, less, left - 1);
        assert r == [head] + rest;
        ScanIsBest(rows, tail, candidate, shared, less, left - 1);
        BestTakes(rows, head, tail, candidate, shared, room, left, rest);
      }
    }
  }

  lemma BestSkips(
      rows: seq<Correction>, head: nat, tail: seq<nat>, candidate: Candidate, shared: Option<nat>, room: nat, left: nat,
      r: seq<nat>)
    requires head < |rows| && (forall i <- tail :: Newer(rows, head, i))
    requires Best(rows, tail, candidate, shared, room, left, r)
    requires Some(head) == shared || !Matches(rows[head], candidate) || |rows[head].text| > room
    ensures Best(rows, [head] + tail, candidate, shared, room, left, r)
  {
    NoneNewer(rows, r, head);
  }

  lemma BestTakes(
      rows: seq<Correction>, head: nat, tail: seq<nat>, candidate: Candidate, shared: Option<nat>, room: nat, left: nat,
      r: seq<nat>)
    requires head < |rows| && (forall i <- tail :: Newer(rows, head, i)) && left > 0 && |rows[head].text| <= room
    requires Best(rows, tail, candidate, shared, room - |rows[head].text|, left - 1, r)
    requires Some(head) != shared && Matches(rows[head], candidate)
    ensures Best(rows, [head] + tail, candidate, shared, room, left, [head] + r)
  {
    var all := [head] + r;
    assert all[1..] == r;
    NoneNewer(rows, all, head);
    assert NewestFirst(rows, all) by {
      assert forall k :: 0 <= k < |r| ==> r[k] in r && r[k] in tail;
    }
    forall i | i in [head] + tail && i < |rows| && Matches(rows[i], candidate) && Some(i) != shared
      ensures i in all <==> Fits(rows, NewerThan(rows, all, i), i, room, left)
    {
      if i != head {
        NewerThanHead(rows, head, r, i);
        assert ([head] + NewerThan(rows, r, i))[1..] == NewerThan(rows, r, i);
      }
    }
  }

  // ---------------------------------------------------------------- what a prompt is given

  predicate NoRepeats(ids: seq<nat>) {
    forall j, k :: 0 <= j < k < |ids| ==> ids[j] != ids[k]
  }

  predicate Leads(rows: seq<Correction>, shared: Option<nat>) {
    shared.Some? && shared.value < |rows| && |rows[shared.value].text| <= CORRECTIONS_MAX_CHARS
  }

  /**
   * The whole selection: bounded twice over, without repeats, the shared words first when they fit, the rest newest
   * first, active and matching; and with fewer than the most chosen, no unchosen matching one fits in what is left.
   */
  ghost predicate Maximal(rows: seq<Correction>, candidate: Candidate, shared: Option<nat>, r: seq<nat>) {
    && Rows(rows, r) && NoRepeats(r) && |r| <= CORRECTIONS_MAX && Chars(rows, r) <= CORRECTIONS_MAX_CHARS
    && (Leads(rows, shared) ==> r != [] && r[0] == shared.value)
    && (var rest := if Leads(rows, shared) then r[1..] else r;
        && NewestFirst(rows, rest)
        && forall i <- rest ::
            i < |rows| && Active(rows[i], candidate.agent) && Matches(rows[i], candidate) && Some(i) != shared)
    && (|r| < CORRECTIONS_MAX ==>
          forall i: nat | i < |rows| && i !in r && Active(rows[i], candidate.agent) && Matches(rows[i], candidate) ::
            Chars(rows, r) + |rows[i].text| > CORRECTIONS_MAX_CHARS)
  }

  lemma SelectionIsMaximal(rows: seq<Correction>, candidate: Candidate, shared: Option<nat>)
    requires Worded(rows) && (shared.Some? ==> shared.value < |rows|)
    ensures Maximal(rows, candidate, shared, Selected(rows, candidate, shared))
  {
    var order := ActiveNewest(rows, candidate.agent, |rows|);
    if Leads(rows, shared) {
      var room := CORRECTIONS_MAX_CHARS - |rows[shared.value].text|;
      ScanIsBest(rows, order, candidate, shared, room, CORRECTIONS_MAX - 1);
      MaximalWithShared(rows, candidate, shared.value, Scan(rows, order, candidate, shared, room, CORRECTIONS_MAX - 1));
    } else {
      ScanIsBest(rows, order, candidate, shared, CORRECTIONS_MAX_CHARS, CORRECTIONS_MAX);
      MaximalWithoutShared(rows, candidate, shared, Selected(rows, candidate, shared));
    }
  }

  lemma MaximalWithShared(rows: seq<Correction>, candidate: Candidate, shared: nat, rest: seq<nat>)
    requires Leads(rows, Some(shared))
    requires
      Best(
        rows, ActiveNewest(rows, candidate.agent, |rows|), candidate, Some(shared),
        CORRECTIONS_MAX_CHARS - |rows[shared].text|, CORRECTIONS_MAX - 1, rest)
    ensures Maximal(rows, candidate, Some(shared), [shared] + rest)
  {
    BestIsMaximal(
      rows, ActiveNewest(rows, candidate.agent, |rows|), candidate, Some(shared),
      CORRECTIONS_MAX_CHARS - |rows[shared].text|, CORRECTIONS_MAX - 1, rest);
    var r := [shared] + rest;
    assert r[1..] == rest;
    assert Chars(rows, r) == |rows[shared].text| + Chars(rows, rest);
    assert forall i :: i !in r <==> i != shared && i !in rest;
    LeadRepeatsNothing(rows, shared, rest);
  }

  lemma LeadRepeatsNothing(rows: seq<Correction>, shared: nat, rest: seq<nat>)
    requires NewestFirst(rows, rest) && shared !in rest
    ensures NoRepeats([shared] + rest)
  {
    assert forall k :: 0 <= k < |rest| ==> rest[k] in rest;
  }

  lemma MaximalWithoutShared(rows: seq<Correction>, candidate: Candidate, shared: Option<nat>, r: seq<nat>)
    requires !Leads(rows, shared) && (shared.Some? ==> shared.value < |rows|)
    requires Best(rows, ActiveNewest(rows, candidate.agent, |rows|), candidate, shared, CORRECTIONS_MAX_CHARS,
      CORRECTIONS_MAX, r)
    ensures Maximal(rows, candidate, shared, r)
  {
    BestIsMaximal(rows, ActiveNewest(rows, candidate.agent, |rows|), candidate, shared, CORRECTIONS_MAX_CHARS,
      CORRECTIONS_MAX, r);
  }

  lemma {:induction false} FewerNewer(rows: seq<Correction>, chosen: seq<nat>, i: nat)
    requires Rows(rows, chosen)
    ensures |NewerThan(rows, chosen, i)| <= |chosen| && Chars(rows, NewerThan(rows, chosen, i)) <= Chars(rows, chosen)
  {
    if chosen != [] {
      FewerNewer(rows, chosen[1..], i);
      if Newer(rows, chosen[0], i) {
        assert NewerThan(rows, chosen, i)[1..] == NewerThan(rows, chosen[1..], i);
      }
    }
  }

  lemma BestIsMaximal(
      rows: seq<Correction>, order: seq<nat>, candidate: Candidate, shared: Option<nat>, room: nat, left: nat,
      r: seq<nat>)
    requires NewestFirst(rows, order) && Best(rows, order, candidate, shared, room, left, r)
    ensures |r| < left ==>
      forall i <- order | i < |rows| && i !in r && Matches(rows[i], candidate) && Some(i) != shared ::
        Chars(rows, r) + |rows[i].text| > room
  {
    forall i | |r| < left && i in order && i < |rows| && i !in r && Matches(rows[i], candidate) && Some(i) != shared
      ensures Chars(rows, r) + |rows[i].text| > room
    {
      FewerNewer(rows, r, i);
    }
  }

  /** The employee's own, not retired, and of the candidate's category or on its surface. */
  predicate IsWanted(row: Correction, candidate: Candidate) {
    && row.agent == candidate.agent && row.retiredAt.None?
    && (row.category == candidate.category || exists surface <- row.surfaces :: surface == candidate.slug)
  }

  predicate OnlyWanted(rows: seq<Correction>, candidate: Candidate, r: seq<nat>, from: nat) {
    forall j | from <= j < |r| :: r[j] < |rows| && IsWanted(rows[r[j]], candidate)
  }

  /** From a place on the newest first, and the later kept first among equals. */
  predicate LatestFirst(rows: seq<Correction>, r: seq<nat>, from: nat)
    requires Rows(rows, r)
  {
    forall j, k | from <= j < k < |r| ::
      || rows[r[j]].createdAt > rows[r[k]].createdAt
      || (rows[r[j]].createdAt == rows[r[k]].createdAt && r[j] > r[k])
  }

  /** Every wanted one left out was too long for what was left. */
  ghost predicate NoneLeftOut(rows: seq<Correction>, candidate: Candidate, r: seq<nat>)
    requires Rows(rows, r)
  {
    forall i: nat | i < |rows| && i !in r && IsWanted(rows[i], candidate) ::
      Chars(rows, r) + |rows[i].text| > CORRECTIONS_MAX_CHARS
  }

  lemma LatestSaid(rows: seq<Correction>, lead: seq<nat>, rest: seq<nat>)
    requires NewestFirst(rows, rest) && Rows(rows, lead + rest)
    ensures LatestFirst(rows, lead + rest, |lead|)
  {
    var r, n := lead + rest, |lead|;
    forall j, k | n <= j < k < |r|
      ensures
        || rows[r[j]].createdAt > rows[r[k]].createdAt
        || (rows[r[j]].createdAt == rows[r[k]].createdAt && r[j] > r[k])
    {
      assert Newer(rows, rest[j - n], rest[k - n]);
    }
  }

  lemma WantedSaid(rows: seq<Correction>, candidate: Candidate, lead: seq<nat>, rest: seq<nat>)
    requires forall i <- rest :: i < |rows| && Active(rows[i], candidate.agent) && Matches(rows[i], candidate)
    ensures OnlyWanted(rows, candidate, lead + rest, |lead|)
  {
    var r, n := lead + rest, |lead|;
    forall j | n <= j < |r|
      ensures r[j] < |rows| && IsWanted(rows[r[j]], candidate)
    {
      assert rest[j - n] in rest;
    }
  }

  lemma LeftOutSaid(rows: seq<Correction>, candidate: Candidate, r: seq<nat>)
    requires Rows(rows, r)
    requires
      forall i: nat | i < |rows| && i !in r && Active(rows[i], candidate.agent) && Matches(rows[i], candidate) ::
        Chars(rows, r) + |rows[i].text| > CORRECTIONS_MAX_CHARS
    ensures NoneLeftOut(rows, candidate, r)
  {
  }

  lemma MaximalSaid(rows: seq<Correction>, candidate: Candidate, shared: Option<nat>, r: seq<nat>)
    requires Maximal(rows, candidate, shared, r)
    ensures Rows(rows, r)
    ensures
      var from := if Leads(rows, shared) then 1 else 0;
      OnlyWanted(rows, candidate, r, from) && LatestFirst(rows, r, from)
    ensures |r| < CORRECTIONS_MAX ==> NoneLeftOut(rows, candidate, r)
  {
    hide Chars, NoRepeats, OnlyWanted, LatestFirst, NoneLeftOut, NewestFirst, Rows, Active, Matches;
    var lead := if Leads(rows, shared) then [r[0]] else [];
    var rest := if Leads(rows, shared) then r[1..] else r;
    assert r == lead + rest;
    if |r| < CORRECTIONS_MAX { LeftOutSaid(rows, candidate, r); }
    LatestSaid(rows, lead, rest);
    WantedSaid(rows, candidate, lead, rest);
  }

  /**
   * In the rows' own terms: behind the shared words the selection lists wanted corrections alone, the newest first and
   * the later kept first among equals; and with fewer than the most chosen every wanted one left out was too long.
   */
  lemma SelectionIsOfTheWanted(rows: seq<Correction>, candidate: Candidate, shared: Option<nat>)
    requires Worded(rows) && (shared.Some? ==> shared.value < |rows|)
    ensures Rows(rows, Selected(rows, candidate, shared))
    ensures
      var r := Selected(rows, candidate, shared);
      var led := shared.Some? && |rows[shared.value].text| <= CORRECTIONS_MAX_CHARS;
      && (led ==> r != [] && r[0] == shared.value)
      && OnlyWanted(rows, candidate, r, if led then 1 else 0) && LatestFirst(rows, r, if led then 1 else 0)
      && (|r| < CORRECTIONS_MAX ==> NoneLeftOut(rows, candidate, r))
  {
    SelectionIsMaximal(rows, candidate, shared);
    MaximalSaid(rows, candidate, shared, Selected(rows, candidate, shared));
  }

  // ---------------------------------------------------------------- the plain form of the selection

  /** The plain form's loop: a text too long for the room left is skipped, not the end of the walk. */
  function Greedy(rows: seq<Correction>, order: seq<nat>, room: nat, left: nat): seq<nat>
    requires Rows(rows, order)
  {
    if order == [] || left == 0 then []
    else if |rows[order[0]].text| > room then Greedy(rows, order[1..], room, left)
    else [order[0]] + Greedy(rows, order[1..], room - |rows[order[0]].text|, left - 1)
  }

  /** A stable sort by time, newest first. */
  function SortedIn(rows: seq<Correction>, sorted: seq<nat>, i: nat): (r: seq<nat>)
    requires Rows(rows, sorted) && i < |rows|
    ensures Rows(rows, r) && forall x :: x in r <==> x == i || x in sorted
  {
    if sorted == [] || rows[sorted[|sorted| - 1]].createdAt >= rows[i].createdAt then sorted + [i]
    else
      assert sorted == sorted[..|sorted| - 1] + [sorted[|sorted| - 1]];
      SortedIn(rows, sorted[..|sorted| - 1], i) + [sorted[|sorted| - 1]]
  }

  function SortedByTime(rows: seq<Correction>, ids: seq<nat>): (r: seq<nat>)
    requires Rows(rows, ids)
    ensures Rows(rows, r) && forall x :: x in r <==> x in ids
  {
    if ids == [] then []
    else
      assert ids == ids[..|ids| - 1] + [ids[|ids| - 1]];
      SortedIn(rows, SortedByTime(rows, ids[..|ids| - 1]), ids[|ids| - 1])
  }

  function Matching(rows: seq<Correction>, ids: seq<nat>, candidate: Candidate): (r: seq<nat>)
    ensures Rows(rows, r)
    ensures
      forall i :: i in r <==> i in ids && i < |rows| && Active(rows[i], candidate.agent) && Matches(rows[i], candidate)
  {
    var r := Filter(ids, (i: nat) => i < |rows| && Active(rows[i], candidate.agent) && Matches(rows[i], candidate));
    assert forall k :: 0 <= k < |r| ==> r[k] in r;
    r
  }

  /** The plain selection, over the corrections in any order. */
  function SelectCorrections(rows: seq<Correction>, ids: seq<nat>, candidate: Candidate): seq<nat> {
    Greedy(rows, SortedByTime(rows, Matching(rows, ids, candidate)), CORRECTIONS_MAX_CHARS, CORRECTIONS_MAX)
  }

  predicate DistinctTimes(rows: seq<Correction>, ids: seq<nat>)
    requires Rows(rows, ids)
  {
    forall j, k :: 0 <= j < k < |ids| ==> rows[ids[j]].createdAt != rows[ids[k]].createdAt
  }

  lemma AppendedNewest(rows: seq<Correction>, sorted: seq<nat>, last: nat)
    requires NewestFirst(rows, sorted) && last < |rows|
    requires forall x <- sorted :: x < |rows| && Newer(rows, x, last)
    ensures NewestFirst(rows, sorted + [last])
  {
    assert forall k :: 0 <= k < |sorted| ==> sorted[k] in sorted;
  }

  lemma {:induction false} SortedInNewest(rows: seq<Correction>, sorted: seq<nat>, i: nat)
    requires NewestFirst(rows, sorted) && i < |rows|
    requires forall x <- sorted :: x < |rows| && rows[x].createdAt != rows[i].createdAt
    ensures NewestFirst(rows, SortedIn(rows, sorted, i))
  {
    if sorted == [] {
    } else if rows[sorted[|sorted| - 1]].createdAt < rows[i].createdAt {
      var front, last := sorted[..|sorted| - 1], sorted[|sorted| - 1];
      assert sorted == front + [last];
      SortedInNewest(rows, front, i);
      assert forall x <- front :: Newer(rows, x, last) by {
        assert forall k :: 0 <= k < |front| ==> Newer(rows, sorted[k], last);
      }
      AppendedNewest(rows, SortedIn(rows, front, i), last);
    } else {
      var last := sorted[|sorted| - 1];
      assert last in sorted && forall k :: 0 <= k < |sorted| - 1 ==> Newer(rows, sorted[k], last);
      AppendedNewest(rows, sorted, i);
    }
  }

  lemma {:induction false} SortedByTimeNewest(rows: seq<Correction>, ids: seq<nat>)
    requires Rows(rows, ids) && DistinctTimes(rows, ids)
    ensures NewestFirst(rows, SortedByTime(rows, ids))
  {
    if ids != [] {
      var front, last := ids[..|ids| - 1], ids[|ids| - 1];
      SortedByTimeNewest(rows, front);
      assert forall x <- front :: exists k :: 0 <= k < |front| && ids[k] == x;
      SortedInNewest(rows, SortedByTime(rows, front), last);
    }
  }

  lemma NoMembers(s: seq<nat>)
    ensures s == [] <==> forall x :: x !in s
  {
    if s != [] { assert s[0] in s; }
  }

  /** Two newest-first lists of the same corrections are one list. */
  lemma {:induction false} NewestFirstIsUnique(rows: seq<Correction>, a: seq<nat>, b: seq<nat>)
    requires NewestFirst(rows, a) && NewestFirst(rows, b) && forall x :: x in a <==> x in b
    ensures a == b
  {
    NoMembers(a);
    NoMembers(b);
    if a != [] {
      assert a[0] in a && b[0] in b;
      assert a[0] == b[0] by {
        var j :| 0 <= j < |b| && b[j] == a[0];
        var k :| 0 <= k < |a| && a[k] == b[0];
      }
      TailMembers(rows, a);
      TailMembers(rows, b);
      NewestFirstIsUnique(rows, a[1..], b[1..]);
    }
  }

  lemma TailMembers(rows: seq<Correction>, a: seq<nat>)
    requires NewestFirst(rows, a) && a != []
    ensures forall x :: x in a[1..] <==> x in a && x != a[0]
  {
    assert a == [a[0]] + a[1..];
    forall x | x in a[1..]
      ensures x != a[0]
    {
      var k :| 0 <= k < |a[1..]| && a[1..][k] == x;
      assert Newer(rows, a[0], a[k + 1]);
    }
  }

  lemma GreedyStep(rows: seq<Correction>, head: nat, tail: seq<nat>, room: nat, left: nat)
    requires head < |rows| && Rows(rows, tail) && left > 0
    ensures
      Greedy(rows, [head] + tail, room, left) ==
        if |rows[head].text| > room then Greedy(rows, tail, room, left)
        else [head] + Greedy(rows, tail, room - |rows[head].text|, left - 1)
  {
    assert ([head] + tail)[1..] == tail;
  }

  lemma MatchingStep(rows: seq<Correction>, order: seq<nat>, candidate: Candidate)
    requires Rows(rows, order) && order != [] && Active(rows[order[0]], candidate.agent)
    ensures
      Matching(rows, order, candidate) ==
        (if Matches(rows[order[0]], candidate) then [order[0]] else []) + Matching(rows, order[1..], candidate)
  {
  }

  lemma {:induction false} MatchingNewest(rows: seq<Correction>, order: seq<nat>, candidate: Candidate)
    requires NewestFirst(rows, order) && forall i <- order :: i < |rows| && Active(rows[i], candidate.agent)
    ensures NewestFirst(rows, Matching(rows, order, candidate))
  {
    if order != [] {
      var head, tail := order[0], order[1..];
      assert head in order && forall i <- tail :: i in order;
      MatchingNewest(rows, tail, candidate);
      MatchingStep(rows, order, candidate);
      var rest := Matching(rows, tail, candidate);
      forall k | 0 <= k < |rest|
        ensures Newer(rows, head, rest[k])
      {
        assert rest[k] in rest;
        var j :| 0 <= j < |tail| && tail[j] == rest[k];
        assert order[j + 1] == rest[k];
      }
    }
  }

  lemma {:induction false} ScanIsGreedy(
      rows: seq<Correction>, order: seq<nat>, candidate: Candidate, room: nat, left: nat)
    requires Rows(rows, order) && Worded(rows)
    requires forall k :: 0 <= k < |order| ==> Active(rows[order[k]], candidate.agent)
    ensures Scan(rows, order, candidate, None, room, left) == Greedy(rows, Matching(rows, order, candidate), room, left)
  {
    if room == 0 {
      NoRoom(rows, Matching(rows, order, candidate), left);
    } else if order != [] && left > 0 {
      var head, tail := order[0], order[1..];
      MatchingStep(rows, order, candidate);
      if Matches(rows[head], candidate) {
        GreedyStep(rows, head, Matching(rows, tail, candidate), room, left);
      }
      if Matches(rows[head], candidate) && |rows[head].text| <= room {
        ScanIsGreedy(rows, tail, candidate, room - |rows[head].text|, left - 1);
      } else {
        ScanIsGreedy(rows, tail, candidate, room, left);
      }
    }
  }

  lemma {:induction false} NoRoom(rows: seq<Correction>, order: seq<nat>, left: nat)
    requires Rows(rows, order) && Worded(rows)
    ensures Greedy(rows, order, 0, left) == []
  {
    if order != [] {
      assert rows[order[0]] in rows && !Blank(rows[order[0]].text);
      NoRoom(rows, order[1..], left);
    }
  }

  /**
   * The bounded scan of the index is the plain selection over the whole table, listed in any order, when no shared
   * words come first and no two of the matching ones share a time.
   */
  lemma ScanRefinesThePlainForm(rows: seq<Correction>, ids: seq<nat>, candidate: Candidate)
    requires Worded(rows) && DistinctTimes(rows, Matching(rows, ids, candidate))
    requires forall i: nat | i < |rows| && Active(rows[i], candidate.agent) :: i in ids
    ensures Selected(rows, candidate, None) == SelectCorrections(rows, ids, candidate)
  {
    var order := ActiveNewest(rows, candidate.agent, |rows|);
    ScanIsGreedy(rows, order, candidate, CORRECTIONS_MAX_CHARS, CORRECTIONS_MAX);
    MatchingNewest(rows, order, candidate);
    SortedByTimeNewest(rows, Matching(rows, ids, candidate));
    NewestFirstIsUnique(rows, Matching(rows, order, candidate), SortedByTime(rows, Matching(rows, ids, candidate)));
  }

  // ---------------------------------------------------------------- the words a colleague is shown

  predicate Rejecting(row: Correction, item: Item) {
    row.agent == item.agent && row.item == item.id && !row.kind.RetryNote? && row.retiredAt.None?
  }

  /** The earliest of a list by its words' time, the one read first among equals. */
  function EarliestWords(rows: seq<Correction>, ids: seq<nat>): Option<nat>
    requires Rows(rows, ids)
  {
    if ids == [] then None
    else
      var last := ids[|ids| - 1];
      var earliest := EarliestWords(rows, ids[..|ids| - 1]);
      if earliest.Some? && earliest.value < |rows| && rows[earliest.value].createdAt <= rows[last].createdAt then
        earliest
      else Some(last)
  }

  /** The newest rows of an employee, newest kept first. */
  function AgentRows(rows: seq<Correction>, agent: nat, n: nat): (r: seq<nat>)
    requires n <= |rows|
    ensures forall i: nat :: i in r <==> i < n && rows[i].agent == agent
  {
    if n == 0 then []
    else if rows[n - 1].agent == agent then [n - 1] + AgentRows(rows, agent, n - 1)
    else AgentRows(rows, agent, n - 1)
  }

  function RejectionWords(rows: seq<Correction>, item: Item): (r: seq<nat>)
    ensures Rows(rows, r)
  {
    var read := Take(AgentRows(rows, item.agent, |rows|), CORRECTIONS_READ);
    var r := Filter(read, (i: nat) => i < |rows| && Rejecting(rows[i], item));
    assert forall k :: 0 <= k < |r| ==> r[k] in r;
    r
  }

  function FirstRejectionCorrection(rows: seq<Correction>, item: Item): Option<nat> {
    EarliestWords(rows, RejectionWords(rows, item))
  }

  lemma {:induction false} EarliestWordsExactly(rows: seq<Correction>, ids: seq<nat>)
    requires Rows(rows, ids)
    ensures EarliestWords(rows, ids).None? <==> ids == []
    ensures EarliestWords(rows, ids).Some? ==> EarliestOf(rows, ids, EarliestWords(rows, ids).value)
  {
    if ids != [] {
      var front, last := ids[..|ids| - 1], ids[|ids| - 1];
      EarliestWordsExactly(rows, front);
      var before := EarliestWords(rows, front);
      if before.Some? {
        EarlierOfTwo(rows, front, last, before.value);
      } else {
        assert front == [] && ids == [last];
      }
      assert ids == front + [last];
    }
  }

  ghost predicate EarliestOf(rows: seq<Correction>, ids: seq<nat>, id: nat) {
    && id in ids && id < |rows|
    && forall k :: 0 <= k < |ids| ==> ids[k] < |rows| && rows[id].createdAt <= rows[ids[k]].createdAt
  }

  lemma EarlierOfTwo(rows: seq<Correction>, front: seq<nat>, last: nat, id: nat)
    requires EarliestOf(rows, front, id) && last < |rows|
    ensures EarliestOf(rows, front + [last], if rows[id].createdAt <= rows[last].createdAt then id else last)
  {
    assert (front + [last])[|front|] == last;
  }

  /** Words of that employee on that item, not retired, kept when its plan or its actions were rejected. */
  predicate KeptWithRejection(row: Correction, item: Item) {
    && row.agent == item.agent && row.item == item.id && row.retiredAt.None?
    && (row.kind == RejectedActions || row.kind == RejectedPlan)
  }

  /**
   * Within the read's bound, a colleague is shown the earliest words kept with the rejection, and none exactly when
   * every one of them was retired or none was kept.
   */
  lemma FirstWordsAreFound(rows: seq<Correction>, item: Item)
    requires |AgentRows(rows, item.agent, |rows|)| <= CORRECTIONS_READ
    ensures
      var r := FirstRejectionCorrection(rows, item);
      && (r.None? <==> forall row <- rows :: !KeptWithRejection(row, item))
      && (r.Some? ==>
            && r.value < |rows| && KeptWithRejection(rows[r.value], item)
            && forall row <- rows | KeptWithRejection(row, item) :: rows[r.value].createdAt <= row.createdAt)
  {
    var words := RejectionWords(rows, item);
    EarliestWordsExactly(rows, words);
    forall row | row in rows && Rejecting(row, item)
      ensures exists i: nat :: i < |rows| && rows[i] == row && i in words
    {
      var i :| 0 <= i < |rows| && rows[i] == row;
      assert i in AgentRows(rows, item.agent, |rows|);
    }
    assert words == [] || words[0] in words;
  }

  /** The words of the first rejection of the same provider item, when it is live and its words stand. */
  function SharedFor(db: Db, rows: seq<Correction>, item: Item): Result<Option<nat>, string> {
    match FirstTicketRejection(db, item)
    case Err(refused) => Err(refused)
    case Ok(None) => Ok(None)
    case Ok(Some(Retired(_))) => Ok(None)
    case Ok(Some(Live(other))) => Ok(FirstRejectionCorrection(rows, other))
  }

  /**
   * Within the reads' bounds the words a colleague is shown are the earliest active ones kept with the earliest
   * rejection of all, when a live row holds it.
   */
  lemma SharedIsOfTheEarliest(db: Db, rows: seq<Correction>, item: Item)
    requires DistinctIds(db.items) && Answers(db, item) && FewOthers(db, item)
    requires forall y <- db.items :: TimesOrdered(y)
    requires forall y <- db.items :: |AgentRows(rows, y.agent, |rows|)| <= CORRECTIONS_READ
    ensures
      var answer, shared := FirstTicketRejection(db, item), SharedFor(db, rows, item);
      && shared.Ok? && answer.Ok? && IsEarliest(db, item, answer.value)
      && (shared.value.Some? ==> answer.value.Some? && answer.value.value.Live?)
      && (answer.value.Some? && answer.value.value.Live? ==>
            var other := answer.value.value.item;
            && (shared.value.None? <==> forall row <- rows :: !KeptWithRejection(row, other))
            && (shared.value.Some? ==>
                  && shared.value.value < |rows| && KeptWithRejection(rows[shared.value.value], other)
                  && forall row <- rows | KeptWithRejection(row, other) ::
                      rows[shared.value.value].createdAt <= row.createdAt))
  {
    EarliestIsFound(db, item);
    var answer := FirstTicketRejection(db, item).value;
    if answer.Some? && answer.value.Live? {
      assert Holds(db, item, answer.value.item);
      FirstWordsAreFound(rows, answer.value.item);
    }
  }
}
