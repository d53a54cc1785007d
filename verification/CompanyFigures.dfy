/** The company's figures pooled from its employees' (convex/companyFigures.ts). */
module CompanyFigures {
  import opened Prelude
  import opened Latencies

  // ---------------------------------------------------------------- sums, lists and nulls over rows

  function Sum<T(!new)>(rows: seq<T>, pick: T -> nat): nat {
    if rows == [] then 0 else Sum(rows[..|rows| - 1], pick) + pick(rows[|rows| - 1])
  }

  function Flat<T(!new), U>(rows: seq<T>, pick: T -> seq<U>): seq<U> {
    if rows == [] then [] else Flat(rows[..|rows| - 1], pick) + pick(rows[|rows| - 1])
  }

  function Listed<U>(value: Option<U>): seq<U> {
    if value.Some? then [value.value] else []
  }

  /** The values there are: what `flatMap` over a nullable field keeps. */
  function Present<T(!new), U>(rows: seq<T>, pick: T -> Option<U>): seq<U> {
    Flat(rows, row => Listed(pick(row)))
  }

  function Total(values: seq<nat>): nat {
    Sum(values, n => n)
  }

  function Least(values: seq<real>): (r: real)
    requires values != []
    ensures r in values && forall v <- values :: r <= v
  {
    if |values| == 1 then values[0]
    else
      var before := Least(values[..|values| - 1]);
      var last := values[|values| - 1];
      assert forall v <- values :: v == last || v in values[..|values| - 1];
      if last < before then last else before
  }

  lemma {:induction false} SumAppend<T(!new)>(a: seq<T>, b: seq<T>, pick: T -> nat)
    ensures Sum(a + b, pick) == Sum(a, pick) + Sum(b, pick)
  {
    if b == [] {
      assert a + b == a;
    } else {
      assert (a + b)[..|a + b| - 1] == a + b[..|b| - 1];
      SumAppend(a, b[..|b| - 1], pick);
    }
  }

  lemma {:induction false} FlatAppend<T(!new), U>(a: seq<T>, b: seq<T>, pick: T -> seq<U>)
    ensures Flat(a + b, pick) == Flat(a, pick) + Flat(b, pick)
  {
    if b == [] {
      assert a + b == a;
    } else {
      assert (a + b)[..|a + b| - 1] == a + b[..|b| - 1];
      FlatAppend(a, b[..|b| - 1], pick);
    }
  }

  lemma SumOne<T(!new)>(row: T, pick: T -> nat)
    ensures Sum([row], pick) == pick(row)
  {
    assert [row][..0] == [];
  }

  lemma FlatOne<T(!new), U>(row: T, pick: T -> seq<U>)
    ensures Flat([row], pick) == pick(row)
  {
    assert [row][..0] == [];
  }

  lemma {:induction false} SumPermutes<T(!new)>(a: seq<T>, b: seq<T>, pick: T -> nat)
    requires multiset(a) == multiset(b)
    ensures Sum(a, pick) == Sum(b, pick)
  {
    if a == [] {
      assert |multiset(b)| == 0;
    } else {
      var front, last := a[..|a| - 1], a[|a| - 1];
      assert a == front + [last];
      var i := Without(b, front, last);
      SumPermutes(front, b[..i] + b[i + 1..], pick);
      assert b == b[..i] + ([b[i]] + b[i + 1..]);
      SumAppend(b[..i], [b[i]] + b[i + 1..], pick);
      SumAppend([b[i]], b[i + 1..], pick);
      SumAppend(b[..i], b[i + 1..], pick);
      SumOne(b[i], pick);
    }
  }

  lemma {:induction false} FlatPermutes<T(!new), U>(a: seq<T>, b: seq<T>, pick: T -> seq<U>)
    requires multiset(a) == multiset(b)
    ensures multiset(Flat(a, pick)) == multiset(Flat(b, pick))
  {
    if a == [] {
      assert |multiset(b)| == 0;
    } else {
      var front, last := a[..|a| - 1], a[|a| - 1];
      assert a == front + [last];
      var i := Without(b, front, last);
      FlatPermutes(front, b[..i] + b[i + 1..], pick);
      assert b == b[..i] + ([b[i]] + b[i + 1..]);
      FlatAppend(b[..i], [b[i]] + b[i + 1..], pick);
      FlatAppend([b[i]], b[i + 1..], pick);
      FlatAppend(b[..i], b[i + 1..], pick);
      FlatOne(b[i], pick);
    }
  }

  // ---------------------------------------------------------------- one employee's raw figures

  datatype Via = Via(dashboard: seq<real>, channel: seq<real>)

  datatype DecisionTotals = DecisionTotals(
    requested: nat, approved: nat, rejected: nat, partiallyApproved: nat, cancelled: nat,
    latencies: seq<real>, byVia: Via)

  datatype Cards = Cards(raised: nat, approved: nat, dismissed: nat, deferred: nat)

  datatype PilotTotals = PilotTotals(
    runs: nat, reused: nat, adopted: nat, toEnd: seq<real>, toCompletion: seq<real>, partlyDone: nat,
    answered: nat, amended: nat, cards: Cards, estimatedItems: nat, estimatedMinutes: nat,
    retrievalItems: nat, retrievalChars: nat, tokenItems: nat, billedChars: nat, inputTokens: nat)

  datatype Automatic = Automatic(readings: nat, managerMessages: nat, writes: nat)

  datatype Actions = Actions(
    autoApplied: nat, automatic: Automatic, sessionRestores: nat, held: nat, approved: nat, rejected: nat, refused: nat,
    blockedAfterRevocation: Option<nat>, firstBlockAfterRevocationMs: Option<real>)

  /** What one employee hands to the pooling: its raw lists, and the parts of its metrics the company adds up. */
  datatype Figure = Figure(
    decisions: DecisionTotals, pilot: PilotTotals, actions: Actions, timeToFirstApprovedMs: Option<real>,
    surfacesApproved: nat, surfacesRejected: nat, surfacesAbsent: nat, skillsApproved: nat, skillsRejected: nat,
    autonomyChanges: nat, auditComplete: nat, auditTotal: nat)

  // ---------------------------------------------------------------- summaries

  datatype ByWay = ByWay(decided: nat, latency: Latency)

  datatype Decisions = Decisions(
    requested: nat, approved: nat, rejected: nat, partiallyApproved: nat, cancelled: nat,
    latency: Latency, dashboard: ByWay, channel: ByWay)

  function SummariseDecisions(totals: DecisionTotals): Decisions {
    Decisions(
      totals.requested, totals.approved, totals.rejected, totals.partiallyApproved, totals.cancelled,
      LatencySummary(totals.latencies),
      ByWay(|totals.byVia.dashboard|, LatencySummary(totals.byVia.dashboard)),
      ByWay(|totals.byVia.channel|, LatencySummary(totals.byVia.channel)))
  }

  function Per(part: nat, whole: nat): real
    requires whole > 0
  {
    part as real / whole as real
  }

  /** A rate over nothing is null, never zero. */
  function Rate(part: nat, whole: nat): Option<real> {
    if whole > 0 then Some(Per(part, whole)) else None
  }

  function Hours(items: nat, minutes: nat): Option<real> {
    if items > 0 then Some(minutes as real / 60.0) else None
  }

  datatype Tokens = Tokens(items: nat, charsPerItem: real, inputTokensPerItem: Option<real>)

  function RetrievalTokens(totals: PilotTotals): Option<Tokens> {
    if totals.tokenItems > 0 then
      Some(Tokens(
             totals.tokenItems, Per(totals.billedChars, totals.tokenItems),
             Some(Per(totals.inputTokens, totals.tokenItems))))
    else if totals.retrievalItems == 0 then None
    else Some(Tokens(totals.retrievalItems, Per(totals.retrievalChars, totals.retrievalItems), None))
  }

  datatype Pilot = Pilot(
    runs: nat, reused: nat, adopted: nat, reuseRate: Option<real>,
    ended: nat, medianToEndMs: Option<real>, completed: nat, partlyDone: nat,
    medianToCompletionMs: Option<real>, p90ToCompletionMs: Option<real>,
    cards: Cards, answered: nat, amended: nat, amendedRate: Option<real>,
    estimatedItems: nat, hours: Option<real>, tokens: Option<Tokens>, recallShown: bool)

  function SummarisePilot(totals: PilotTotals): Pilot {
    var completion := LatencySummary(totals.toCompletion);
    Pilot(
      totals.runs, totals.reused, totals.adopted, Rate(totals.reused, totals.runs),
      |totals.toEnd|, LatencySummary(totals.toEnd).median, |totals.toCompletion|, totals.partlyDone,
      completion.median, completion.p90,
      totals.cards, totals.answered, totals.amended, Rate(totals.amended, totals.answered),
      totals.estimatedItems, Hours(totals.estimatedItems, totals.estimatedMinutes),
      RetrievalTokens(totals), totals.retrievalItems > 0)
  }

  // ---------------------------------------------------------------- pooling

  function PooledDecisions(rows: seq<DecisionTotals>): DecisionTotals {
    DecisionTotals(
      Sum(rows, (r: DecisionTotals) => r.requested), Sum(rows, (r: DecisionTotals) => r.approved),
      Sum(rows, (r: DecisionTotals) => r.rejected), Sum(rows, (r: DecisionTotals) => r.partiallyApproved),
      Sum(rows, (r: DecisionTotals) => r.cancelled), Flat(rows, (r: DecisionTotals) => r.latencies),
      Via(Flat(rows, (r: DecisionTotals) => r.byVia.dashboard), Flat(rows, (r: DecisionTotals) => r.byVia.channel)))
  }

  function PooledPilot(rows: seq<PilotTotals>): PilotTotals {
    PilotTotals(
      Sum(rows, (r: PilotTotals) => r.runs), Sum(rows, (r: PilotTotals) => r.reused),
      Sum(rows, (r: PilotTotals) => r.adopted),
      Flat(rows, (r: PilotTotals) => r.toEnd), Flat(rows, (r: PilotTotals) => r.toCompletion),
      Sum(rows, (r: PilotTotals) => r.partlyDone), Sum(rows, (r: PilotTotals) => r.answered),
      Sum(rows, (r: PilotTotals) => r.amended),
      Cards(
        Sum(rows, (r: PilotTotals) => r.cards.raised), Sum(rows, (r: PilotTotals) => r.cards.approved),
        Sum(rows, (r: PilotTotals) => r.cards.dismissed), Sum(rows, (r: PilotTotals) => r.cards.deferred)),
      Sum(rows, (r: PilotTotals) => r.estimatedItems), Sum(rows, (r: PilotTotals) => r.estimatedMinutes),
      Sum(rows, (r: PilotTotals) => r.retrievalItems), Sum(rows, (r: PilotTotals) => r.retrievalChars),
      Sum(rows, (r: PilotTotals) => r.tokenItems), Sum(rows, (r: PilotTotals) => r.billedChars),
      Sum(rows, (r: PilotTotals) => r.inputTokens))
  }

  function PooledActions(rows: seq<Actions>): Actions {
    var blocked := Present(rows, (r: Actions) => r.blockedAfterRevocation);
    var firstBlocks := Present(rows, (r: Actions) => r.firstBlockAfterRevocationMs);
    Actions(
      Sum(rows, (r: Actions) => r.autoApplied),
      Automatic(
        Sum(rows, (r: Actions) => r.automatic.readings), Sum(rows, (r: Actions) => r.automatic.managerMessages),
        Sum(rows, (r: Actions) => r.automatic.writes)),
      Sum(rows, (r: Actions) => r.sessionRestores), Sum(rows, (r: Actions) => r.held),
      Sum(rows, (r: Actions) => r.approved),
      Sum(rows, (r: Actions) => r.rejected), Sum(rows, (r: Actions) => r.refused),
      if |blocked| > 0 then Some(Total(blocked)) else None,
      if |firstBlocks| > 0 then Some(Least(firstBlocks)) else None)
  }

  // ---------------------------------------------------------------- pooling one more row

  /** Two employees' pilot figures taken together. */
  function BothPilots(a: PilotTotals, b: PilotTotals): PilotTotals {
    PilotTotals(
      a.runs + b.runs, a.reused + b.reused, a.adopted + b.adopted, a.toEnd + b.toEnd, a.toCompletion + b.toCompletion,
      a.partlyDone + b.partlyDone, a.answered + b.answered, a.amended + b.amended,
      Cards(
        a.cards.raised + b.cards.raised, a.cards.approved + b.cards.approved,
        a.cards.dismissed + b.cards.dismissed, a.cards.deferred + b.cards.deferred),
      a.estimatedItems + b.estimatedItems, a.estimatedMinutes + b.estimatedMinutes,
      a.retrievalItems + b.retrievalItems, a.retrievalChars + b.retrievalChars,
      a.tokenItems + b.tokenItems, a.billedChars + b.billedChars, a.inputTokens + b.inputTokens)
  }

  lemma PilotStep(rows: seq<PilotTotals>, row: PilotTotals)
    ensures PooledPilot(rows + [row]) == BothPilots(PooledPilot(rows), row)
  {
    assert (rows + [row])[..|rows + [row]| - 1] == rows;
  }

  function BothDecisions(a: DecisionTotals, b: DecisionTotals): DecisionTotals {
    DecisionTotals(
      a.requested + b.requested, a.approved + b.approved, a.rejected + b.rejected,
      a.partiallyApproved + b.partiallyApproved, a.cancelled + b.cancelled, a.latencies + b.latencies,
      Via(a.byVia.dashboard + b.byVia.dashboard, a.byVia.channel + b.byVia.channel))
  }

  lemma DecisionStep(rows: seq<DecisionTotals>, row: DecisionTotals)
    ensures PooledDecisions(rows + [row]) == BothDecisions(PooledDecisions(rows), row)
  {
    assert (rows + [row])[..|rows + [row]| - 1] == rows;
  }

  /** A null counts as nothing beside a number, and two nulls stay null. */
  function BothCounts(a: Option<nat>, b: Option<nat>): Option<nat> {
    if a.None? then b else if b.None? then a else Some(a.value + b.value)
  }

  function Earlier(a: Option<real>, b: Option<real>): Option<real> {
    if a.None? then b else if b.None? then a else Some(if b.value < a.value then b.value else a.value)
  }

  function BothActions(a: Actions, b: Actions): Actions {
    Actions(
      a.autoApplied + b.autoApplied,
      Automatic(
        a.automatic.readings + b.automatic.readings, a.automatic.managerMessages + b.automatic.managerMessages,
        a.automatic.writes + b.automatic.writes),
      a.sessionRestores + b.sessionRestores, a.held + b.held, a.approved + b.approved, a.rejected + b.rejected,
      a.refused + b.refused, BothCounts(a.blockedAfterRevocation, b.blockedAfterRevocation),
      Earlier(a.firstBlockAfterRevocationMs, b.firstBlockAfterRevocationMs))
  }

  lemma ActionsStep(rows: seq<Actions>, row: Actions)
    ensures PooledActions(rows + [row]) == BothActions(PooledActions(rows), row)
  {
    assert (rows + [row])[..|rows + [row]| - 1] == rows;
    BlockedStep(rows, row);
    FirstBlockStep(rows, row);
  }

  lemma BlockedStep(rows: seq<Actions>, row: Actions)
    ensures
      PooledActions(rows + [row]).blockedAfterRevocation ==
        BothCounts(PooledActions(rows).blockedAfterRevocation, row.blockedAfterRevocation)
  {
    assert (rows + [row])[..|rows + [row]| - 1] == rows;
    var before := Present(rows, (r: Actions) => r.blockedAfterRevocation);
    var after := Present(rows + [row], (r: Actions) => r.blockedAfterRevocation);
    assert after == before + Listed(row.blockedAfterRevocation);
    if row.blockedAfterRevocation.Some? {
      assert after[..|after| - 1] == before;
      assert Total(after) == Total(before) + row.blockedAfterRevocation.value;
    } else {
      assert after == before;
    }
  }

  lemma FirstBlockStep(rows: seq<Actions>, row: Actions)
    ensures
      PooledActions(rows + [row]).firstBlockAfterRevocationMs ==
        Earlier(PooledActions(rows).firstBlockAfterRevocationMs, row.firstBlockAfterRevocationMs)
  {
    assert (rows + [row])[..|rows + [row]| - 1] == rows;
    var before := Present(rows, (r: Actions) => r.firstBlockAfterRevocationMs);
    var after := Present(rows + [row], (r: Actions) => r.firstBlockAfterRevocationMs);
    assert after == before + Listed(row.firstBlockAfterRevocationMs);
    if row.firstBlockAfterRevocationMs.Some? {
      assert after[..|after| - 1] == before;
    } else {
      assert after == before;
    }
  }

  // ---------------------------------------------------------------- pooling in parts

  /** What a pooling and its pairwise form have to do with each other. */
  ghost predicate PoolsBy<T(!new)>(pool: seq<T> -> T, both: (T, T) -> T) {
    && (forall rows: seq<T>, row: T :: pool(rows + [row]) == both(pool(rows), row))
    && (forall x: T, y: T, z: T :: both(both(x, y), z) == both(x, both(y, z)))
    && (forall x: T :: both(x, pool([])) == x && both(pool([]), x) == x)
  }

  /** Such a pooling takes a concatenation as the two pools together. */
  lemma {:induction false} Together<T(!new)>(pool: seq<T> -> T, both: (T, T) -> T, a: seq<T>, b: seq<T>)
    requires PoolsBy(pool, both)
    ensures pool(a + b) == both(pool(a), pool(b))
  {
    if b == [] {
      assert a + b == a;
    } else {
      var front, last := b[..|b| - 1], b[|b| - 1];
      assert b == front + [last] && a + b == (a + front) + [last];
      Together(pool, both, a, front);
    }
  }

  /** And so the pool of a concatenation is the pool of the two pools. */
  lemma InParts<T(!new)>(pool: seq<T> -> T, both: (T, T) -> T, a: seq<T>, b: seq<T>)
    requires PoolsBy(pool, both)
    ensures pool(a + b) == pool([pool(a), pool(b)])
  {
    Together(pool, both, a, b);
    var x, y := pool(a), pool(b);
    assert [] + [x] == [x] && [x] + [y] == [x, y];
    assert pool([] + [x]) == x;
    assert pool([x] + [y]) == both(x, y);
  }

  lemma PilotPoolsBy()
    ensures PoolsBy(PooledPilot, BothPilots)
  {
    forall rows: seq<PilotTotals>, row: PilotTotals
      ensures PooledPilot(rows + [row]) == BothPilots(PooledPilot(rows), row)
    {
      PilotStep(rows, row);
    }
    forall x: PilotTotals, y: PilotTotals, z: PilotTotals
      ensures BothPilots(BothPilots(x, y), z) == BothPilots(x, BothPilots(y, z))
    {
      PilotsAssociate(x, y, z);
    }
    forall x: PilotTotals
      ensures BothPilots(x, PooledPilot([])) == x && BothPilots(PooledPilot([]), x) == x
    {
      NoPilots(x);
    }
  }

  lemma PilotsAssociate(x: PilotTotals, y: PilotTotals, z: PilotTotals)
    ensures BothPilots(BothPilots(x, y), z) == BothPilots(x, BothPilots(y, z))
  {
    assert (x.toEnd + y.toEnd) + z.toEnd == x.toEnd + (y.toEnd + z.toEnd);
    assert (x.toCompletion + y.toCompletion) + z.toCompletion == x.toCompletion + (y.toCompletion + z.toCompletion);
  }

  lemma NoPilots(x: PilotTotals)
    ensures BothPilots(x, PooledPilot([])) == x && BothPilots(PooledPilot([]), x) == x
  {
    assert x.toEnd + [] == x.toEnd && [] + x.toEnd == x.toEnd;
    assert x.toCompletion + [] == x.toCompletion && [] + x.toCompletion == x.toCompletion;
  }

  /** Pooling pilots is a homomorphism. */
  lemma PilotPoolsInParts(a: seq<PilotTotals>, b: seq<PilotTotals>)
    ensures PooledPilot(a + b) == PooledPilot([PooledPilot(a), PooledPilot(b)])
  {
    PilotPoolsBy();
    InParts(PooledPilot, BothPilots, a, b);
  }

  lemma ActionsAssociate(x: Actions, y: Actions, z: Actions)
    ensures BothActions(BothActions(x, y), z) == BothActions(x, BothActions(y, z))
  {
  }

  lemma NoActions(x: Actions)
    ensures BothActions(x, PooledActions([])) == x && BothActions(PooledActions([]), x) == x
  {
  }

  lemma ActionsPoolsBy()
    ensures PoolsBy(PooledActions, BothActions)
  {
    forall rows: seq<Actions>, row: Actions
      ensures PooledActions(rows + [row]) == BothActions(PooledActions(rows), row)
    {
      ActionsStep(rows, row);
    }
    forall x: Actions, y: Actions, z: Actions
      ensures BothActions(BothActions(x, y), z) == BothActions(x, BothActions(y, z))
    {
      ActionsAssociate(x, y, z);
    }
    forall x: Actions
      ensures BothActions(x, PooledActions([])) == x && BothActions(PooledActions([]), x) == x
    {
      NoActions(x);
    }
  }

  /** So is pooling actions, the two nullable figures included. */
  lemma ActionsPoolInParts(a: seq<Actions>, b: seq<Actions>)
    ensures PooledActions(a + b) == PooledActions([PooledActions(a), PooledActions(b)])
  {
    ActionsPoolsBy();
    InParts(PooledActions, BothActions, a, b);
  }

  /**
   * The null rules: a company figure is null exactly when every employee's is; else the blocked count adds up the
   * counts there are, and the first block is the least time there is.
   */
  lemma {:induction false} NullRules(rows: seq<Actions>)
    ensures PooledActions(rows).blockedAfterRevocation.None? <==> forall row <- rows :: row.blockedAfterRevocation.None?
    ensures
      var blocked := PooledActions(rows).blockedAfterRevocation;
      blocked.GetOr(0) == Sum(rows, (r: Actions) => r.blockedAfterRevocation.GetOr(0))
    ensures
      PooledActions(rows).firstBlockAfterRevocationMs.None? <==>
      forall row <- rows :: row.firstBlockAfterRevocationMs.None?
    ensures
      var first := PooledActions(rows).firstBlockAfterRevocationMs;
      first.Some? ==>
        && (exists row <- rows :: row.firstBlockAfterRevocationMs == first)
        && forall row <- rows ::
            row.firstBlockAfterRevocationMs.Some? ==> first.value <= row.firstBlockAfterRevocationMs.value
  {
    if rows != [] {
      var front, last := rows[..|rows| - 1], rows[|rows| - 1];
      assert rows == front + [last];
      NullRules(front);
      BlockedStep(front, last);
      FirstBlockStep(front, last);
      assert forall row <- rows :: row in front || row == last;
      assert forall row <- front :: row in rows;
      assert last in rows;
    }
  }

  // ---------------------------------------------------------------- the company's row

  function DecisionRows(figures: seq<Figure>): seq<DecisionTotals> {
    Map(figures, (f: Figure) => f.decisions)
  }

  function ActionRows(figures: seq<Figure>): seq<Actions> {
    Map(figures, (f: Figure) => f.actions)
  }

  function PilotRows(figures: seq<Figure>): seq<PilotTotals> {
    Map(figures, (f: Figure) => f.pilot)
  }

  function CharterTimes(figures: seq<Figure>): seq<Option<real>> {
    Map(figures, (f: Figure) => f.timeToFirstApprovedMs)
  }

  datatype Charter = Charter(timesToFirstApprovedMs: seq<Option<real>>, medianTimeToFirstApprovedMs: Option<real>,
    approvedEmployees: nat)

  datatype Counts = Counts(
    surfacesApproved: nat, surfacesRejected: nat, surfacesAbsent: nat, skillsApproved: nat, skillsRejected: nat,
    autonomyChanges: nat, auditComplete: nat, auditTotal: nat, auditFraction: Option<real>)

  datatype Company = Company(employees: nat, charter: Charter, decisions: Decisions, actions: Actions, counts: Counts,
    pilot: Pilot)

  function CharterOf(figures: seq<Figure>): Charter {
    var approvedTimes := Present(figures, (f: Figure) => f.timeToFirstApprovedMs);
    Charter(CharterTimes(figures), LatencySummary(approvedTimes).median, |approvedTimes|)
  }

  function CountsOf(figures: seq<Figure>): Counts {
    var complete := Sum(figures, (f: Figure) => f.auditComplete);
    var total := Sum(figures, (f: Figure) => f.auditTotal);
    Counts(
      Sum(figures, (f: Figure) => f.surfacesApproved), Sum(figures, (f: Figure) => f.surfacesRejected),
      Sum(figures, (f: Figure) => f.surfacesAbsent), Sum(figures, (f: Figure) => f.skillsApproved),
      Sum(figures, (f: Figure) => f.skillsRejected), Sum(figures, (f: Figure) => f.autonomyChanges),
      complete, total, Rate(complete, total))
  }

  function CompanyWith(figures: seq<Figure>, decisions: DecisionTotals): Company {
    Company(
      |figures|, CharterOf(figures), SummariseDecisions(decisions), PooledActions(ActionRows(figures)),
      CountsOf(figures),
      SummarisePilot(PooledPilot(PilotRows(figures))))
  }

  function CompanyOf(figures: seq<Figure>): Company {
    CompanyWith(figures, PooledDecisions(DecisionRows(figures)))
  }

  /**
   * The one pooling every reader takes: its loop over the decisions adds up every count and keeps every wait, in deploy
   * order.
   */
  method CompanyMetricsOf(figures: seq<Figure>) returns (company: Company)
    ensures company == CompanyOf(figures)
  {
    var decisions := DecisionTotals(0, 0, 0, 0, 0, [], Via([], []));
    for i := 0 to |figures|
      invariant decisions == PooledDecisions(DecisionRows(figures)[..i])
    {
      var own := figures[i].decisions;
      DecisionStep(DecisionRows(figures)[..i], own);
      assert DecisionRows(figures)[..i + 1] == DecisionRows(figures)[..i] + [own];
      decisions := decisions.(
        requested := decisions.requested + own.requested, approved := decisions.approved + own.approved,
        rejected := decisions.rejected + own.rejected,
        partiallyApproved := decisions.partiallyApproved + own.partiallyApproved,
        cancelled := decisions.cancelled + own.cancelled);
      decisions := decisions.(latencies := decisions.latencies + own.latencies);
      decisions := decisions.(
        byVia := Via(decisions.byVia.dashboard + own.byVia.dashboard, decisions.byVia.channel + own.byVia.channel));
    }
    assert DecisionRows(figures)[..|figures|] == DecisionRows(figures);
    company := CompanyWith(figures, decisions);
  }

  // ---------------------------------------------------------------- the order of the employees

  lemma MapPermutes<T(!new), U(!new)>(a: seq<T>, b: seq<T>, f: T -> U)
    requires multiset(a) == multiset(b)
    ensures multiset(Map(a, f)) == multiset(Map(b, f))
  {
    var pick := (x: T) => [f(x)];
    FlatPermutes(a, b, pick);
    FlatIsMap(a, f, pick);
    FlatIsMap(b, f, pick);
  }

  lemma {:induction false} FlatIsMap<T(!new), U>(rows: seq<T>, f: T -> U, pick: T -> seq<U>)
    requires forall x :: pick(x) == [f(x)]
    ensures Flat(rows, pick) == Map(rows, f)
  {
    if rows != [] {
      FlatIsMap(rows[..|rows| - 1], f, pick);
      assert Map(rows, f) == Map(rows[..|rows| - 1], f) + [f(rows[|rows| - 1])];
    }
  }

  /** Up to a likeness that does not see the order of two rows, such a pooling does not see the order of any. */
  ghost predicate Unordered<T(!new)>(both: (T, T) -> T, alike: (T, T) -> bool) {
    && (forall x: T :: alike(x, x))
    && (forall x: T, y: T, z: T :: alike(x, y) && alike(y, z) ==> alike(x, z))
    && (forall x: T, y: T, z: T :: alike(x, y) ==> alike(both(x, z), both(y, z)))
    && (forall x: T, y: T, z: T :: alike(both(both(x, y), z), both(x, both(z, y))))
  }

  lemma {:induction false} PoolPermutes<T(!new)>(
      pool: seq<T> -> T, both: (T, T) -> T, alike: (T, T) -> bool, a: seq<T>, b: seq<T>)
    requires PoolsBy(pool, both) && Unordered(both, alike)
    requires multiset(a) == multiset(b)
    ensures alike(pool(a), pool(b))
  {
    if a == [] {
      assert |multiset(b)| == 0;
      assert a == b;
    } else {
      var front, last := a[..|a| - 1], a[|a| - 1];
      assert a == front + [last];
      var i := Without(b, front, last);
      var left, right := b[..i], b[i + 1..];
      assert b == left + ([last] + right);
      PoolPermutes(pool, both, alike, front, left + right);
      Around(pool, both, left, last, right);
      MoveLast(both, alike, pool(front), pool(left), pool(right), last);
    }
  }

  lemma Around<T(!new)>(pool: seq<T> -> T, both: (T, T) -> T, left: seq<T>, row: T, right: seq<T>)
    requires PoolsBy(pool, both)
    ensures pool(left + right) == both(pool(left), pool(right))
    ensures pool(left + ([row] + right)) == both(pool(left), both(row, pool(right)))
  {
    Together(pool, both, left, right);
    Together(pool, both, left, [row] + right);
    Together(pool, both, [row], right);
    assert [] + [row] == [row];
    assert pool([] + [row]) == row;
  }

  lemma MoveLast<T(!new)>(both: (T, T) -> T, alike: (T, T) -> bool, front: T, left: T, right: T, last: T)
    requires Unordered(both, alike) && alike(front, both(left, right))
    ensures alike(both(front, last), both(left, both(last, right)))
  {
    assert alike(both(both(left, right), last), both(left, both(last, right)));
  }

  ghost predicate AlikePilots(a: PilotTotals, b: PilotTotals) {
    && a.(toEnd := [], toCompletion := []) == b.(toEnd := [], toCompletion := [])
    && multiset(a.toEnd) == multiset(b.toEnd) && multiset(a.toCompletion) == multiset(b.toCompletion)
  }

  ghost predicate AlikeDecisions(a: DecisionTotals, b: DecisionTotals) {
    && a.(latencies := [], byVia := Via([], [])) == b.(latencies := [], byVia := Via([], []))
    && multiset(a.latencies) == multiset(b.latencies)
    && multiset(a.byVia.dashboard) == multiset(b.byVia.dashboard)
    && multiset(a.byVia.channel) == multiset(b.byVia.channel)
  }

  lemma SameWaits(a: seq<real>, b: seq<real>)
    requires multiset(a) == multiset(b)
    ensures |a| == |b| && LatencySummary(a) == LatencySummary(b)
  {
    assert |multiset(a)| == |a| && |multiset(b)| == |b|;
    SummaryPermutes(a, b);
  }

  lemma PilotPermutes(a: seq<PilotTotals>, b: seq<PilotTotals>)
    requires multiset(a) == multiset(b)
    ensures AlikePilots(PooledPilot(a), PooledPilot(b))
  {
    PilotPoolsBy();
    PilotsUnordered();
    PoolPermutes(PooledPilot, BothPilots, AlikePilots, a, b);
  }

  lemma PilotsUnordered()
    ensures Unordered(BothPilots, AlikePilots)
  {
    forall x: PilotTotals, y: PilotTotals, z: PilotTotals | AlikePilots(x, y)
      ensures AlikePilots(BothPilots(x, z), BothPilots(y, z))
    {
      PilotsCongruent(x, y, z);
    }
    forall x: PilotTotals, y: PilotTotals, z: PilotTotals
      ensures AlikePilots(BothPilots(BothPilots(x, y), z), BothPilots(x, BothPilots(z, y)))
    {
      PilotsSwap(x, y, z);
    }
    forall x: PilotTotals, y: PilotTotals, z: PilotTotals | AlikePilots(x, y) && AlikePilots(y, z)
      ensures AlikePilots(x, z)
    {
    }
  }

  lemma PilotsCongruent(x: PilotTotals, y: PilotTotals, z: PilotTotals)
    requires AlikePilots(x, y)
    ensures AlikePilots(BothPilots(x, z), BothPilots(y, z))
  {
  }

  lemma PilotsSwap(x: PilotTotals, y: PilotTotals, z: PilotTotals)
    ensures AlikePilots(BothPilots(BothPilots(x, y), z), BothPilots(x, BothPilots(z, y)))
  {
  }

  lemma AlikePilotsSummarise(a: PilotTotals, b: PilotTotals)
    requires AlikePilots(a, b)
    ensures SummarisePilot(a) == SummarisePilot(b)
  {
    SameWaits(a.toEnd, b.toEnd);
    SameWaits(a.toCompletion, b.toCompletion);
  }

  lemma DecisionsPoolBy()
    ensures PoolsBy(PooledDecisions, BothDecisions)
  {
    forall rows: seq<DecisionTotals>, row: DecisionTotals
      ensures PooledDecisions(rows + [row]) == BothDecisions(PooledDecisions(rows), row)
    {
      DecisionStep(rows, row);
    }
    forall x: DecisionTotals, y: DecisionTotals, z: DecisionTotals
      ensures BothDecisions(BothDecisions(x, y), z) == BothDecisions(x, BothDecisions(y, z))
    {
      DecisionsAssociate(x, y, z);
    }
    forall x: DecisionTotals
      ensures BothDecisions(x, PooledDecisions([])) == x && BothDecisions(PooledDecisions([]), x) == x
    {
      NoDecisions(x);
    }
  }

  lemma DecisionsAssociate(x: DecisionTotals, y: DecisionTotals, z: DecisionTotals)
    ensures BothDecisions(BothDecisions(x, y), z) == BothDecisions(x, BothDecisions(y, z))
  {
    assert (x.latencies + y.latencies) + z.latencies == x.latencies + (y.latencies + z.latencies);
    var a, b, c := x.byVia, y.byVia, z.byVia;
    assert (a.dashboard + b.dashboard) + c.dashboard == a.dashboard + (b.dashboard + c.dashboard);
    assert (a.channel + b.channel) + c.channel == a.channel + (b.channel + c.channel);
  }

  lemma NoDecisions(x: DecisionTotals)
    ensures BothDecisions(x, PooledDecisions([])) == x && BothDecisions(PooledDecisions([]), x) == x
  {
    assert x.latencies + [] == x.latencies && [] + x.latencies == x.latencies;
    assert x.byVia.dashboard + [] == x.byVia.dashboard && [] + x.byVia.dashboard == x.byVia.dashboard;
    assert x.byVia.channel + [] == x.byVia.channel && [] + x.byVia.channel == x.byVia.channel;
  }

  lemma DecisionsUnordered()
    ensures Unordered(BothDecisions, AlikeDecisions)
  {
    forall x: DecisionTotals, y: DecisionTotals, z: DecisionTotals | AlikeDecisions(x, y)
      ensures AlikeDecisions(BothDecisions(x, z), BothDecisions(y, z))
    {
      DecisionsCongruent(x, y, z);
    }
    forall x: DecisionTotals, y: DecisionTotals, z: DecisionTotals
      ensures AlikeDecisions(BothDecisions(BothDecisions(x, y), z), BothDecisions(x, BothDecisions(z, y)))
    {
      DecisionsSwap(x, y, z);
    }
    forall x: DecisionTotals, y: DecisionTotals, z: DecisionTotals | AlikeDecisions(x, y) && AlikeDecisions(y, z)
      ensures AlikeDecisions(x, z)
    {
    }
  }

  lemma DecisionsCongruent(x: DecisionTotals, y: DecisionTotals, z: DecisionTotals)
    requires AlikeDecisions(x, y)
    ensures AlikeDecisions(BothDecisions(x, z), BothDecisions(y, z))
  {
  }

  lemma DecisionsSwap(x: DecisionTotals, y: DecisionTotals, z: DecisionTotals)
    ensures AlikeDecisions(BothDecisions(BothDecisions(x, y), z), BothDecisions(x, BothDecisions(z, y)))
  {
  }

  lemma DecisionsPermute(a: seq<DecisionTotals>, b: seq<DecisionTotals>)
    requires multiset(a) == multiset(b)
    ensures AlikeDecisions(PooledDecisions(a), PooledDecisions(b))
  {
    DecisionsPoolBy();
    DecisionsUnordered();
    PoolPermutes(PooledDecisions, BothDecisions, AlikeDecisions, a, b);
  }

  lemma AlikeDecisionsSummarise(a: DecisionTotals, b: DecisionTotals)
    requires AlikeDecisions(a, b)
    ensures SummariseDecisions(a) == SummariseDecisions(b)
  {
    SameWaits(a.latencies, b.latencies);
    SameWaits(a.byVia.dashboard, b.byVia.dashboard);
    SameWaits(a.byVia.channel, b.byVia.channel);
  }

  predicate SameActions(a: Actions, b: Actions) {
    a == b
  }

  lemma ActionsSwap(x: Actions, y: Actions, z: Actions)
    ensures SameActions(BothActions(BothActions(x, y), z), BothActions(x, BothActions(z, y)))
  {
  }

  lemma ActionsPermute(a: seq<Actions>, b: seq<Actions>)
    requires multiset(a) == multiset(b)
    ensures PooledActions(a) == PooledActions(b)
  {
    ActionsPoolsBy();
    forall x: Actions, y: Actions, z: Actions
      ensures SameActions(BothActions(BothActions(x, y), z), BothActions(x, BothActions(z, y)))
    {
      ActionsSwap(x, y, z);
    }
    PoolPermutes(PooledActions, BothActions, SameActions, a, b);
  }

  lemma PresentPermutes<T(!new), U>(a: seq<T>, b: seq<T>, pick: T -> Option<U>)
    requires multiset(a) == multiset(b)
    ensures multiset(Present(a, pick)) == multiset(Present(b, pick))
  {
    FlatPermutes(a, b, row => Listed(pick(row)));
  }

  /** The order of the employees changes nothing of the company's row but the order of the list of charter times. */
  lemma EmployeeOrderIsInvisible(a: seq<Figure>, b: seq<Figure>)
    requires multiset(a) == multiset(b)
    ensures
      var one, other := CompanyOf(a), CompanyOf(b);
      && one == other.(charter := one.charter)
      && one.charter.medianTimeToFirstApprovedMs == other.charter.medianTimeToFirstApprovedMs
      && one.charter.approvedEmployees == other.charter.approvedEmployees
      && multiset(one.charter.timesToFirstApprovedMs) == multiset(other.charter.timesToFirstApprovedMs)
  {
    assert |multiset(a)| == |a| && |multiset(b)| == |b|;
    OwnRowsPermute(a, b);
    CountsPermute(a, b);
    CharterPermutes(a, b);
  }

  lemma CharterPermutes(a: seq<Figure>, b: seq<Figure>)
    requires multiset(a) == multiset(b)
    ensures
      var one, other := CharterOf(a), CharterOf(b);
      && one == other.(timesToFirstApprovedMs := one.timesToFirstApprovedMs)
      && multiset(one.timesToFirstApprovedMs) == multiset(other.timesToFirstApprovedMs)
  {
    MapPermutes(a, b, (f: Figure) => f.timeToFirstApprovedMs);
    PresentPermutes(a, b, (f: Figure) => f.timeToFirstApprovedMs);
    SameWaits(Present(a, (f: Figure) => f.timeToFirstApprovedMs), Present(b, (f: Figure) => f.timeToFirstApprovedMs));
  }

  lemma OwnRowsPermute(a: seq<Figure>, b: seq<Figure>)
    requires multiset(a) == multiset(b)
    ensures SummariseDecisions(PooledDecisions(DecisionRows(a))) == SummariseDecisions(PooledDecisions(DecisionRows(b)))
    ensures PooledActions(ActionRows(a)) == PooledActions(ActionRows(b))
    ensures SummarisePilot(PooledPilot(PilotRows(a))) == SummarisePilot(PooledPilot(PilotRows(b)))
  {
    MapPermutes(a, b, (f: Figure) => f.decisions);
    MapPermutes(a, b, (f: Figure) => f.actions);
    MapPermutes(a, b, (f: Figure) => f.pilot);
    DecisionsPermute(DecisionRows(a), DecisionRows(b));
    AlikeDecisionsSummarise(PooledDecisions(DecisionRows(a)), PooledDecisions(DecisionRows(b)));
    ActionsPermute(ActionRows(a), ActionRows(b));
    PilotPermutes(PilotRows(a), PilotRows(b));
    AlikePilotsSummarise(PooledPilot(PilotRows(a)), PooledPilot(PilotRows(b)));
  }

  lemma CountsPermute(a: seq<Figure>, b: seq<Figure>)
    requires multiset(a) == multiset(b)
    ensures CountsOf(a) == CountsOf(b)
  {
    forall pick: Figure -> nat ensures Sum(a, pick) == Sum(b, pick) { SumPermutes(a, b, pick); }
  }

  // ---------------------------------------------------------------- between the smallest and the largest employee

  lemma {:induction false} FlatIsPool<T(!new)>(rows: seq<T>, waits: T -> seq<real>)
    ensures Flat(rows, waits) == Pool(Map(rows, waits))
  {
    if rows != [] {
      FlatIsPool(rows[..|rows| - 1], waits);
      assert Map(rows, waits)[..|rows| - 1] == Map(rows[..|rows| - 1], waits);
    }
  }

  lemma {:induction false} FlatOfMap<T(!new), U(!new), V>(
      rows: seq<T>, part: T -> U, pick: U -> seq<V>, whole: T -> seq<V>)
    requires forall row :: whole(row) == pick(part(row))
    ensures Flat(Map(rows, part), pick) == Flat(rows, whole)
  {
    if rows != [] {
      FlatOfMap(rows[..|rows| - 1], part, pick, whole);
      assert Map(rows, part)[..|rows| - 1] == Map(rows[..|rows| - 1], part);
    }
  }

  lemma {:induction false} FlatEmpty<T(!new), U>(rows: seq<T>, pick: T -> seq<U>)
    ensures Flat(rows, pick) == [] <==> forall row <- rows :: pick(row) == []
  {
    if rows != [] {
      var front, last := rows[..|rows| - 1], rows[|rows| - 1];
      FlatEmpty(front, pick);
      assert forall row <- rows :: row in front || row == last;
      assert last in rows;
    }
  }

  /** A pooled latency is null only when every employee's is. */
  lemma PooledWaitsNull<T(!new)>(rows: seq<T>, waits: T -> seq<real>)
    ensures
      var pooled := LatencySummary(Flat(rows, waits));
      && (pooled.median.None? <==> forall row <- rows :: LatencySummary(waits(row)).median.None?)
      && (pooled.p90.None? <==> forall row <- rows :: LatencySummary(waits(row)).p90.None?)
  {
    FlatEmpty(rows, waits);
  }

  lemma ListsOf<T(!new)>(rows: seq<T>, waits: T -> seq<real>)
    ensures forall l <- Map(rows, waits) :: exists row <- rows :: l == waits(row)
    ensures Flat(rows, waits) == Pool(Map(rows, waits))
  {
    FlatIsPool(rows, waits);
    var lists := Map(rows, waits);
    forall l | l in lists
      ensures exists row <- rows :: l == waits(row)
    {
      var i :| 0 <= i < |lists| && lists[i] == l;
      assert rows[i] in rows;
    }
  }

  predicate Within(figure: Option<real>, low: real, high: real) {
    figure.Some? ==> low <= figure.value <= high
  }

  /** Whatever bounds the employees' own medians bounds the pooled one. */
  lemma PooledMedianWithin<T(!new)>(rows: seq<T>, waits: T -> seq<real>, low: real, high: real)
    requires forall row <- rows :: Within(LatencySummary(waits(row)).median, low, high)
    ensures Within(LatencySummary(Flat(rows, waits)).median, low, high)
  {
    ListsOf(rows, waits);
    var lists := Map(rows, waits);
    forall l | l in lists && l != []
      ensures low <= Median(l) <= high
    {
      var row :| row in rows && l == waits(row);
    }
    if Pool(lists) != [] {
      PooledMedianAtLeast(lists, low);
      PooledMedianAtMost(lists, high);
    }
  }

  /** And whatever bounds their 90th percentiles bounds the pooled one. */
  lemma PooledP90Within<T(!new)>(rows: seq<T>, waits: T -> seq<real>, low: real, high: real)
    requires forall row <- rows :: Within(LatencySummary(waits(row)).p90, low, high)
    ensures Within(LatencySummary(Flat(rows, waits)).p90, low, high)
  {
    ListsOf(rows, waits);
    var lists := Map(rows, waits);
    forall l | l in lists && l != []
      ensures low <= P90(l) <= high
    {
      var row :| row in rows && l == waits(row);
    }
    if Pool(lists) != [] {
      PooledP90Between(lists, low, high);
    }
  }

  /** The company's latencies are those pools, over the employees in deploy order. */
  lemma CompanyPoolsWaits(figures: seq<Figure>)
    ensures CompanyOf(figures).decisions.latency == LatencySummary(Flat(figures, (f: Figure) => f.decisions.latencies))
    ensures
      var pooled := Flat(figures, (f: Figure) => f.decisions.byVia.dashboard);
      CompanyOf(figures).decisions.dashboard.latency == LatencySummary(pooled)
    ensures
      var pooled := Flat(figures, (f: Figure) => f.decisions.byVia.channel);
      CompanyOf(figures).decisions.channel.latency == LatencySummary(pooled)
    ensures CompanyOf(figures).pilot.medianToEndMs == LatencySummary(Flat(figures, (f: Figure) => f.pilot.toEnd)).median
    ensures
      var pooled := LatencySummary(Flat(figures, (f: Figure) => f.pilot.toCompletion));
      && CompanyOf(figures).pilot.medianToCompletionMs == pooled.median
      && CompanyOf(figures).pilot.p90ToCompletionMs == pooled.p90
  {
    FlatOfMap(figures, (f: Figure) => f.decisions, (r: DecisionTotals) => r.latencies,
      (f: Figure) => f.decisions.latencies);
    FlatOfMap(figures, (f: Figure) => f.decisions, (r: DecisionTotals) => r.byVia.dashboard,
      (f: Figure) => f.decisions.byVia.dashboard);
    FlatOfMap(figures, (f: Figure) => f.decisions, (r: DecisionTotals) => r.byVia.channel,
      (f: Figure) => f.decisions.byVia.channel);
    FlatOfMap(figures, (f: Figure) => f.pilot, (r: PilotTotals) => r.toEnd, (f: Figure) => f.pilot.toEnd);
    FlatOfMap(figures, (f: Figure) => f.pilot, (r: PilotTotals) => r.toCompletion, (f: Figure) => f.pilot.toCompletion);
  }

  lemma {:induction false} SumOfMap<T(!new), U(!new)>(rows: seq<T>, part: T -> U, pick: U -> nat, whole: T -> nat)
    requires forall row :: whole(row) == pick(part(row))
    ensures Sum(Map(rows, part), pick) == Sum(rows, whole)
  {
    if rows != [] {
      SumOfMap(rows[..|rows| - 1], part, pick, whole);
      assert Map(rows, part)[..|rows| - 1] == Map(rows[..|rows| - 1], part);
    }
  }

  lemma {:induction false} FlatLength<T(!new), U>(rows: seq<T>, pick: T -> seq<U>, count: T -> nat)
    requires forall row :: count(row) == |pick(row)|
    ensures |Flat(rows, pick)| == Sum(rows, count)
  {
    if rows != [] {
      FlatLength(rows[..|rows| - 1], pick, count);
    }
  }

  /** Each count of the company's decisions is the sum of the employees' own. */
  lemma CompanyCountsDecisions(figures: seq<Figure>)
    ensures
      var company := CompanyOf(figures).decisions;
      && company.requested == Sum(figures, (f: Figure) => f.decisions.requested)
      && company.approved == Sum(figures, (f: Figure) => f.decisions.approved)
      && company.rejected == Sum(figures, (f: Figure) => f.decisions.rejected)
      && company.partiallyApproved == Sum(figures, (f: Figure) => f.decisions.partiallyApproved)
      && company.cancelled == Sum(figures, (f: Figure) => f.decisions.cancelled)
  {
    var part := (f: Figure) => f.decisions;
    SumOfMap(figures, part, (r: DecisionTotals) => r.requested, (f: Figure) => f.decisions.requested);
    SumOfMap(figures, part, (r: DecisionTotals) => r.approved, (f: Figure) => f.decisions.approved);
    SumOfMap(figures, part, (r: DecisionTotals) => r.rejected, (f: Figure) => f.decisions.rejected);
    SumOfMap(figures, part, (r: DecisionTotals) => r.partiallyApproved, (f: Figure) => f.decisions.partiallyApproved);
    SumOfMap(figures, part, (r: DecisionTotals) => r.cancelled, (f: Figure) => f.decisions.cancelled);
  }

  /** And the number decided each way is the number of the employees' waits. */
  lemma CompanyCountsWays(figures: seq<Figure>, dashboard: Figure -> nat, channel: Figure -> nat)
    requires forall f :: dashboard(f) == |f.decisions.byVia.dashboard| && channel(f) == |f.decisions.byVia.channel|
    ensures
      var company := CompanyOf(figures).decisions;
      company.dashboard.decided == Sum(figures, dashboard) && company.channel.decided == Sum(figures, channel)
  {
    var part := (f: Figure) => f.decisions;
    FlatOfMap(figures, part, (r: DecisionTotals) => r.byVia.dashboard, (f: Figure) => f.decisions.byVia.dashboard);
    FlatOfMap(figures, part, (r: DecisionTotals) => r.byVia.channel, (f: Figure) => f.decisions.byVia.channel);
    FlatLength(figures, (f: Figure) => f.decisions.byVia.dashboard, dashboard);
    FlatLength(figures, (f: Figure) => f.decisions.byVia.channel, channel);
  }

  /** What is told per item times the items it is told of is what was counted; nothing is told of no item. */
  lemma TokensMultiplyBack(totals: PilotTotals)
    ensures
      var tokens := RetrievalTokens(totals);
      && (tokens.None? <==> totals.tokenItems == 0 && totals.retrievalItems == 0)
      && (tokens.Some? ==>
            && tokens.value.items > 0
            && tokens.value.charsPerItem * tokens.value.items as real ==
                 (if totals.tokenItems > 0 then totals.billedChars else totals.retrievalChars) as real
            && (tokens.value.inputTokensPerItem.Some? <==> totals.tokenItems > 0)
            && (totals.tokenItems > 0 ==>
                  tokens.value.inputTokensPerItem.value * tokens.value.items as real == totals.inputTokens as real))
  {
    PerMultipliesBack(totals.billedChars, totals.tokenItems);
    PerMultipliesBack(totals.inputTokens, totals.tokenItems);
    PerMultipliesBack(totals.retrievalChars, totals.retrievalItems);
  }

  lemma PerMultipliesBack(part: nat, whole: nat)
    ensures whole > 0 ==> Per(part, whole) * whole as real == part as real
  {
  }

  /** A rate is told of something, and gives its part back. */
  predicate IsRate(rate: Option<real>, part: nat, whole: nat) {
    && (rate.None? <==> whole == 0)
    && (rate.Some? ==> rate.value * whole as real == part as real)
  }

  lemma RateIsRate(part: nat, whole: nat)
    ensures IsRate(Rate(part, whole), part, whole)
  {
    PerMultipliesBack(part, whole);
  }

  /**
   * Each count of the company's pilot is the sum of the employees' own, and each rate the rate of two such sums: what
   * was reused of the runs, and amended of the answered.
   */
  lemma CompanyCountsPilot(figures: seq<Figure>)
    ensures
      var company := CompanyOf(figures).pilot;
      && company.runs == Sum(figures, (f: Figure) => f.pilot.runs)
      && company.reused == Sum(figures, (f: Figure) => f.pilot.reused)
      && company.adopted == Sum(figures, (f: Figure) => f.pilot.adopted)
      && company.partlyDone == Sum(figures, (f: Figure) => f.pilot.partlyDone)
      && company.answered == Sum(figures, (f: Figure) => f.pilot.answered)
      && company.amended == Sum(figures, (f: Figure) => f.pilot.amended)
      && IsRate(company.reuseRate, company.reused, company.runs)
      && IsRate(company.amendedRate, company.amended, company.answered)
  {
    var part := (f: Figure) => f.pilot;
    SumOfMap(figures, part, (r: PilotTotals) => r.runs, (f: Figure) => f.pilot.runs);
    SumOfMap(figures, part, (r: PilotTotals) => r.reused, (f: Figure) => f.pilot.reused);
    SumOfMap(figures, part, (r: PilotTotals) => r.adopted, (f: Figure) => f.pilot.adopted);
    SumOfMap(figures, part, (r: PilotTotals) => r.partlyDone, (f: Figure) => f.pilot.partlyDone);
    SumOfMap(figures, part, (r: PilotTotals) => r.answered, (f: Figure) => f.pilot.answered);
    SumOfMap(figures, part, (r: PilotTotals) => r.amended, (f: Figure) => f.pilot.amended);
    var totals := PooledPilot(PilotRows(figures));
    RateIsRate(totals.reused, totals.runs);
    RateIsRate(totals.amended, totals.answered);
  }

  /** What ended and what was completed are the numbers of the employees' waits. */
  lemma CompanyCountsEnds(figures: seq<Figure>, ended: Figure -> nat, completed: Figure -> nat)
    requires forall f :: ended(f) == |f.pilot.toEnd| && completed(f) == |f.pilot.toCompletion|
    ensures
      var company := CompanyOf(figures).pilot;
      company.ended == Sum(figures, ended) && company.completed == Sum(figures, completed)
  {
    var part := (f: Figure) => f.pilot;
    FlatOfMap(figures, part, (r: PilotTotals) => r.toEnd, (f: Figure) => f.pilot.toEnd);
    FlatOfMap(figures, part, (r: PilotTotals) => r.toCompletion, (f: Figure) => f.pilot.toCompletion);
    FlatLength(figures, (f: Figure) => f.pilot.toEnd, ended);
    FlatLength(figures, (f: Figure) => f.pilot.toCompletion, completed);
  }

  /** And of its cards, its estimate in hours and whether it recalled anything; no hours are told of no item. */
  lemma CompanyCountsEstimates(figures: seq<Figure>)
    ensures
      var company := CompanyOf(figures).pilot;
      && company.cards.raised == Sum(figures, (f: Figure) => f.pilot.cards.raised)
      && company.cards.approved == Sum(figures, (f: Figure) => f.pilot.cards.approved)
      && company.cards.dismissed == Sum(figures, (f: Figure) => f.pilot.cards.dismissed)
      && company.cards.deferred == Sum(figures, (f: Figure) => f.pilot.cards.deferred)
      && company.estimatedItems == Sum(figures, (f: Figure) => f.pilot.estimatedItems)
      && (company.hours.None? <==> company.estimatedItems == 0)
      && (company.hours.Some? ==>
            company.hours.value * 60.0 == Sum(figures, (f: Figure) => f.pilot.estimatedMinutes) as real)
      && (company.recallShown <==> Sum(figures, (f: Figure) => f.pilot.retrievalItems) > 0)
      && (company.tokens.None? ==> !company.recallShown)
  {
    var part := (f: Figure) => f.pilot;
    SumOfMap(figures, part, (r: PilotTotals) => r.cards.raised, (f: Figure) => f.pilot.cards.raised);
    SumOfMap(figures, part, (r: PilotTotals) => r.cards.approved, (f: Figure) => f.pilot.cards.approved);
    SumOfMap(figures, part, (r: PilotTotals) => r.cards.dismissed, (f: Figure) => f.pilot.cards.dismissed);
    SumOfMap(figures, part, (r: PilotTotals) => r.cards.deferred, (f: Figure) => f.pilot.cards.deferred);
    SumOfMap(figures, part, (r: PilotTotals) => r.estimatedItems, (f: Figure) => f.pilot.estimatedItems);
    SumOfMap(figures, part, (r: PilotTotals) => r.estimatedMinutes, (f: Figure) => f.pilot.estimatedMinutes);
    SumOfMap(figures, part, (r: PilotTotals) => r.retrievalItems, (f: Figure) => f.pilot.retrievalItems);
  }

  /** So it is with its actions. */
  lemma CompanyCountsActions(figures: seq<Figure>)
    ensures
      var company := CompanyOf(figures).actions;
      && company.autoApplied == Sum(figures, (f: Figure) => f.actions.autoApplied)
      && company.automatic.readings == Sum(figures, (f: Figure) => f.actions.automatic.readings)
      && company.automatic.managerMessages == Sum(figures, (f: Figure) => f.actions.automatic.managerMessages)
      && company.automatic.writes == Sum(figures, (f: Figure) => f.actions.automatic.writes)
      && company.sessionRestores == Sum(figures, (f: Figure) => f.actions.sessionRestores)
      && company.held == Sum(figures, (f: Figure) => f.actions.held)
      && company.approved == Sum(figures, (f: Figure) => f.actions.approved)
      && company.rejected == Sum(figures, (f: Figure) => f.actions.rejected)
      && company.refused == Sum(figures, (f: Figure) => f.actions.refused)
  {
    var part := (f: Figure) => f.actions;
    SumOfMap(figures, part, (r: Actions) => r.autoApplied, (f: Figure) => f.actions.autoApplied);
    SumOfMap(figures, part, (r: Actions) => r.automatic.readings, (f: Figure) => f.actions.automatic.readings);
    SumOfMap(figures, part, (r: Actions) => r.automatic.managerMessages,
      (f: Figure) => f.actions.automatic.managerMessages);
    SumOfMap(figures, part, (r: Actions) => r.automatic.writes, (f: Figure) => f.actions.automatic.writes);
    SumOfMap(figures, part, (r: Actions) => r.sessionRestores, (f: Figure) => f.actions.sessionRestores);
    SumOfMap(figures, part, (r: Actions) => r.held, (f: Figure) => f.actions.held);
    SumOfMap(figures, part, (r: Actions) => r.approved, (f: Figure) => f.actions.approved);
    SumOfMap(figures, part, (r: Actions) => r.rejected, (f: Figure) => f.actions.rejected);
    SumOfMap(figures, part, (r: Actions) => r.refused, (f: Figure) => f.actions.refused);
  }

  /** So are the company's other counts, its audit share the rate of two of them. */
  lemma CompanyCountsTheRest(figures: seq<Figure>)
    ensures
      var counts := CompanyOf(figures).counts;
      && counts.surfacesApproved == Sum(figures, (f: Figure) => f.surfacesApproved)
      && counts.surfacesRejected == Sum(figures, (f: Figure) => f.surfacesRejected)
      && counts.surfacesAbsent == Sum(figures, (f: Figure) => f.surfacesAbsent)
      && counts.skillsApproved == Sum(figures, (f: Figure) => f.skillsApproved)
      && counts.skillsRejected == Sum(figures, (f: Figure) => f.skillsRejected)
      && counts.autonomyChanges == Sum(figures, (f: Figure) => f.autonomyChanges)
      && counts.auditComplete == Sum(figures, (f: Figure) => f.auditComplete)
      && counts.auditTotal == Sum(figures, (f: Figure) => f.auditTotal)
      && IsRate(counts.auditFraction, counts.auditComplete, counts.auditTotal)
  {
    RateIsRate(CountsOf(figures).auditComplete, CountsOf(figures).auditTotal);
    hide SummarisePilot, SummariseDecisions, PooledActions, CharterOf, IsRate;
  }

  lemma {:induction false} PresentLength<T(!new), U>(rows: seq<T>, pick: T -> Option<U>, count: T -> nat)
    requires forall row :: count(row) == if pick(row).Some? then 1 else 0
    ensures |Present(rows, pick)| == Sum(rows, count)
  {
    if rows != [] {
      PresentLength(rows[..|rows| - 1], pick, count);
    }
  }

  /** The charter times are told employee by employee, with the number and the median of those there are. */
  lemma CharterTimesAreTold(figures: seq<Figure>)
    ensures
      var charter := CharterOf(figures);
      && |charter.timesToFirstApprovedMs| == |figures|
      && (forall i :: 0 <= i < |figures| ==>
            charter.timesToFirstApprovedMs[i] == figures[i].timeToFirstApprovedMs)
      && charter.approvedEmployees == Sum(figures, (f: Figure) => if f.timeToFirstApprovedMs.Some? then 1 else 0)
      && charter.medianTimeToFirstApprovedMs ==
           LatencySummary(Present(figures, (f: Figure) => f.timeToFirstApprovedMs)).median
    ensures CompanyOf(figures).charter == CharterOf(figures) && CompanyOf(figures).employees == |figures|
  {
    var count := (f: Figure) => if f.timeToFirstApprovedMs.Some? then 1 else 0;
    PresentLength(figures, (f: Figure) => f.timeToFirstApprovedMs, count);
  }
}
