/** The corrections table as its transactions write it in place (convex/corrections.ts). */
module CorrectionTable {
  import opened Prelude
  import opened Rejections
  import opened Corrections

  // ---------------------------------------------------------------- the writes, said of the rows

  /** A manager's words, with the work item and employee they concern. */
  datatype Words = Words(agent: nat, item: nat, kind: Kind, text: string, category: string, surfaces: seq<string>)

  function Kept(rows: seq<Correction>, words: Words, now: Time): (seq<Correction>, Option<nat>) {
    if Blank(words.text) then (rows, None)
    else
      var kept := Correction(
        words.agent, words.item, words.kind, words.text, words.category, words.surfaces, now, None, []);
      (rows + [kept], Some(|rows|))
  }

  /** The corrections a stored plan of an employee may say it applied: active, its own, or the shared one. */
  predicate MayApply(rows: seq<Correction>, agent: nat, shared: Option<nat>, i: nat) {
    i < |rows| && rows[i].retiredAt.None? && (rows[i].agent == agent || Some(i) == shared)
  }

  function AppliedTo(row: Correction, item: nat): Correction {
    if item in row.appliedTo then row else row.(appliedTo := row.appliedTo + [item])
  }

  /**
   * The rows and the kept ids after each of the plan's ids, in turn; an id that is none is skipped, as is one named
   * twice.
   */
  function Marked(
      rows: seq<Correction>, agent: nat, item: nat, shared: Option<nat>,
      ids: seq<Option<nat>>): (r: (seq<Correction>, seq<nat>))
    ensures |r.0| == |rows|
  {
    if ids == [] then (rows, [])
    else
      var (before, kept) := Marked(rows, agent, item, shared, ids[..|ids| - 1]);
      var id := ids[|ids| - 1];
      if id.None? || id.value in kept || !MayApply(before, agent, shared, id.value) then (before, kept)
      else (before[id.value := AppliedTo(before[id.value], item)], kept + [id.value])
  }

  function RetiredAt(rows: seq<Correction>, id: nat, now: Time): seq<Correction> {
    if id < |rows| && rows[id].retiredAt.None? then rows[id := rows[id].(retiredAt := Some(now))] else rows
  }

  // ---------------------------------------------------------------- what marking does

  /** The row with the item at the end of the list it was applied to, where it was not on it already. */
  predicate ListsOnce(row: Correction, after: Correction, item: nat) {
    after == row.(appliedTo := row.appliedTo + if item in row.appliedTo then [] else [item])
  }

  /**
   * Marking keeps exactly the named ids that may apply, once each, adds the item once to each of those, and writes
   * nothing else.
   */
  lemma {:induction false} MarkedExactly(
      rows: seq<Correction>, agent: nat, item: nat, shared: Option<nat>, ids: seq<Option<nat>>)
    ensures
      var (after, kept) := Marked(rows, agent, item, shared, ids);
      && NoRepeats(kept)
      && (forall i: nat ::
            i in kept <==>
            && Some(i) in ids && i < |rows| && rows[i].retiredAt.None? && (rows[i].agent == agent || shared == Some(i)))
      && forall i: nat | i < |rows| ::
          if i in kept then ListsOnce(rows[i], after[i], item) else after[i] == rows[i]
  {
    if ids != [] {
      MarkedExactly(rows, agent, item, shared, ids[..|ids| - 1]);
      assert ids == ids[..|ids| - 1] + [ids[|ids| - 1]];
    }
  }

  /** Marking a plan a second time changes nothing and keeps the same ids. */
  lemma MarkedAgain(rows: seq<Correction>, agent: nat, item: nat, shared: Option<nat>, ids: seq<Option<nat>>)
    ensures
      var (after, kept) := Marked(rows, agent, item, shared, ids);
      Marked(after, agent, item, shared, ids) == (after, kept)
  {
    var (after, kept) := Marked(rows, agent, item, shared, ids);
    MarkedExactly(rows, agent, item, shared, ids);
    MarkedExactly(after, agent, item, shared, ids);
    var (again, kept') := Marked(after, agent, item, shared, ids);
    assert again == after;
    SameIds(rows, after, agent, item, shared, ids);
  }

  lemma SameMayApply(rows: seq<Correction>, agent: nat, item: nat, shared: Option<nat>, ids: seq<Option<nat>>)
    ensures
      forall i: nat ::
        MayApply(Marked(rows, agent, item, shared, ids).0, agent, shared, i) <==> MayApply(rows, agent, shared, i)
  {
    var (after, kept) := Marked(rows, agent, item, shared, ids);
    MarkedExactly(rows, agent, item, shared, ids);
    forall i: nat | i < |rows|
      ensures MayApply(after, agent, shared, i) <==> MayApply(rows, agent, shared, i)
    {
      assert if i in kept then ListsOnce(rows[i], after[i], item) else after[i] == rows[i];
    }
  }

  lemma {:induction false} SameIds(
      rows: seq<Correction>, after: seq<Correction>, agent: nat, item: nat, shared: Option<nat>, ids: seq<Option<nat>>)
    requires forall i: nat :: MayApply(rows, agent, shared, i) <==> MayApply(after, agent, shared, i)
    ensures Marked(rows, agent, item, shared, ids).1 == Marked(after, agent, item, shared, ids).1
  {
    if ids != [] {
      var front := ids[..|ids| - 1];
      SameIds(rows, after, agent, item, shared, front);
      SameMayApply(rows, agent, item, shared, front);
      SameMayApply(after, agent, item, shared, front);
    }
  }

  // ---------------------------------------------------------------- over every run

  datatype Write =
    | Keep(words: Words, at: Time)
    | Mark(agent: nat, item: nat, shared: Option<nat>, ids: seq<Option<nat>>)
    | Retire(id: nat, at: Time)

  function Written(rows: seq<Correction>, write: Write): seq<Correction> {
    match write
    case Keep(words, at) => Kept(rows, words, at).0
    case Mark(agent, item, shared, ids) => Marked(rows, agent, item, shared, ids).0
    case Retire(id, at) => RetiredAt(rows, id, at)
  }

  function Run(rows: seq<Correction>, writes: seq<Write>): seq<Correction> {
    if writes == [] then rows else Written(Run(rows, writes[..|writes| - 1]), writes[|writes| - 1])
  }

  ghost predicate Good(rows: seq<Correction>) {
    Worded(rows) && forall row <- rows :: NoRepeats(row.appliedTo)
  }

  /**
   * What no write takes back: the words and what they were kept on, a retirement, and the items they were applied to,
   * in order.
   */
  ghost predicate Stands(row: Correction, later: Correction) {
    && later == row.(retiredAt := later.retiredAt, appliedTo := later.appliedTo)
    && (row.retiredAt.Some? ==> later.retiredAt == row.retiredAt && later.appliedTo == row.appliedTo)
    && row.appliedTo <= later.appliedTo
  }

  lemma WriteStands(rows: seq<Correction>, write: Write)
    ensures |rows| <= |Written(rows, write)| && forall i :: 0 <= i < |rows| ==> Stands(rows[i], Written(rows, write)[i])
    ensures Good(rows) ==> Good(Written(rows, write))
  {
    var after := Written(rows, write);
    if write.Mark? {
      MarkedExactly(rows, write.agent, write.item, write.shared, write.ids);
    }
    if Good(rows) {
      forall row | row in after
        ensures !Blank(row.text) && NoRepeats(row.appliedTo)
      {
        var i :| 0 <= i < |after| && after[i] == row;
        if i < |rows| { assert rows[i] in rows; }
      }
    }
  }

  /**
   * Over every run of writes the words a correction was kept with never change, a retired one stays retired and is
   * applied to nothing more, and no item is listed on one twice.
   */
  lemma {:induction false} CorrectionsStand(rows: seq<Correction>, writes: seq<Write>)
    ensures |rows| <= |Run(rows, writes)| && forall i :: 0 <= i < |rows| ==> Stands(rows[i], Run(rows, writes)[i])
    ensures Good(rows) ==> Good(Run(rows, writes))
  {
    if writes != [] {
      CorrectionsStand(rows, writes[..|writes| - 1]);
      WriteStands(Run(rows, writes[..|writes| - 1]), writes[|writes| - 1]);
    }
  }

  // ---------------------------------------------------------------- a correction's own story

  /** When a run first retires a row. */
  function RetiredBy(writes: seq<Write>, id: nat): Option<Time> {
    if writes == [] then None
    else
      var before, last := RetiredBy(writes[..|writes| - 1], id), writes[|writes| - 1];
      if before.None? && last.Retire? && last.id == id then Some(last.at) else before
  }

  /** The items a run applies a row to until it is retired, each once, by its employee's plans or that share it. */
  function AppliedBy(writes: seq<Write>, id: nat, agent: nat): seq<nat> {
    if writes == [] then []
    else
      var front, last := writes[..|writes| - 1], writes[|writes| - 1];
      var before := AppliedBy(front, id, agent);
      if && last.Mark? && Some(id) in last.ids && (last.agent == agent || last.shared == Some(id))
         && RetiredBy(front, id).None? && last.item !in before
      then before + [last.item] else before
  }

  lemma WriteTells(rows: seq<Correction>, write: Write, id: nat)
    requires id < |rows|
    ensures
      var after := Written(rows, write);
      && id < |after|
      && after[id] ==
           match write
           case Keep(_, _) => rows[id]
           case Retire(retired, at) =>
             if retired == id && rows[id].retiredAt.None? then rows[id].(retiredAt := Some(at)) else rows[id]
           case Mark(agent, item, shared, ids) =>
             if && Some(id) in ids && rows[id].retiredAt.None? && (rows[id].agent == agent || shared == Some(id))
                && item !in rows[id].appliedTo
             then rows[id].(appliedTo := rows[id].appliedTo + [item]) else rows[id]
  {
    if write.Mark? {
      MarkedExactly(rows, write.agent, write.item, write.shared, write.ids);
      var (after, kept) := Marked(rows, write.agent, write.item, write.shared, write.ids);
      assert if id in kept then ListsOnce(rows[id], after[id], write.item) else after[id] == rows[id];
      assert rows[id].appliedTo + [] == rows[id].appliedTo;
    }
  }

  /**
   * Words that are not blank are kept as one row at the end of the table, and blank ones as none. Over every run that
   * follows the row holds those words, retired when it was first asked, and lists the items it was applied to.
   */
  lemma {:induction false} KeptThenOn(rows: seq<Correction>, words: Words, at: Time, writes: seq<Write>)
    ensures Blank(words.text) ==> Kept(rows, words, at) == (rows, None)
    ensures !Blank(words.text) ==>
      var (kept, id) := Kept(rows, words, at);
      && id == Some(|rows|) && |kept| == |rows| + 1 && rows <= kept
      && var later := Run(kept, writes);
      && |rows| < |later|
      && later[|rows|] ==
           Correction(
             words.agent, words.item, words.kind, words.text, words.category, words.surfaces, at,
             RetiredBy(writes, |rows|), AppliedBy(writes, |rows|, words.agent))
  {
    if writes != [] && !Blank(words.text) {
      KeptThenOn(rows, words, at, writes[..|writes| - 1]);
      WriteTells(Run(Kept(rows, words, at).0, writes[..|writes| - 1]), writes[|writes| - 1], |rows|);
    }
  }

  // ---------------------------------------------------------------- the table

  class Table {
    var rows: seq<Correction>

    constructor ()
      ensures rows == [] && Good(rows)
    {
      rows := [];
    }

    method KeepCorrection(words: Words, now: Time) returns (id: Option<nat>)
      modifies this
      ensures (rows, id) == Kept(old(rows), words, now)
      ensures id.Some? ==> id.value < |rows| && Active(rows[id.value], words.agent) && rows[id.value].text == words.text
    {
      if Blank(words.text) { return None; }
      id := Some(|rows|);
      var correction := Correction(
        words.agent, words.item, words.kind, words.text, words.category, words.surfaces, now, None, []);
      rows := rows + [correction];
    }

    method MarkCorrectionsApplied(
        agent: nat, item: nat, shared: Option<nat>, ids: seq<Option<nat>>) returns (kept: seq<nat>)
      modifies this
      ensures (rows, kept) == Marked(old(rows), agent, item, shared, ids)
    {
      kept := [];
      for i := 0 to |ids|
        invariant (rows, kept) == Marked(old(rows), agent, item, shared, ids[..i])
      {
        assert ids[..i + 1][..i] == ids[..i];
        var id := ids[i];
        if id.None? || id.value in kept { continue; }
        if id.value >= |rows| || rows[id.value].retiredAt.Some? { continue; }
        if rows[id.value].agent != agent {
          if id != shared { continue; }
        }
        assert rows[id.value := rows[id.value]] == rows;
        if item !in rows[id.value].appliedTo {
          rows := rows[id.value := rows[id.value].(appliedTo := rows[id.value].appliedTo + [item])];
        }
        kept := kept + [id.value];
      }
      assert ids[..|ids|] == ids;
    }

    method RetireCorrection(id: nat, now: Time) returns (found: bool)
      modifies this
      ensures found <==> id < |old(rows)|
      ensures rows == RetiredAt(old(rows), id, now)
    {
      if id >= |rows| { return false; }
      found := true;
      if rows[id].retiredAt.Some? { return; }
      rows := rows[id := rows[id].(retiredAt := Some(now))];
    }

    /** The indexed scan with the prompt bound applied while it runs. */
    method SelectedForCandidate(candidate: Candidate, shared: Option<nat>) returns (selected: seq<nat>)
      requires shared.Some? ==> shared.value < |rows|
      ensures selected == Selected(rows, candidate, shared)
    {
      selected := [];
      var remaining := CORRECTIONS_MAX_CHARS;
      if shared.Some? && |rows[shared.value].text| <= remaining {
        selected := selected + [shared.value];
        remaining := remaining - |rows[shared.value].text|;
      }
      selected := ScanOn(ActiveNewest(rows, candidate.agent, |rows|), candidate, shared, selected, remaining);
    }

    method ScanOn(
        order: seq<nat>, candidate: Candidate, shared: Option<nat>, before: seq<nat>,
        room: nat) returns (selected: seq<nat>)
      requires Rows(rows, order) && |before| <= CORRECTIONS_MAX
      ensures selected == before + Scan(rows, order, candidate, shared, room, CORRECTIONS_MAX - |before|)
    {
      selected := before;
      var remaining := room;
      ghost var chosen := before + Scan(rows, order, candidate, shared, room, CORRECTIONS_MAX - |before|);
      assert order[0..] == order;
      var i := 0;
      while i < |order| && |selected| != CORRECTIONS_MAX && remaining != 0
        invariant 0 <= i <= |order| && 0 <= remaining && |selected| <= CORRECTIONS_MAX
        invariant
          selected + Scan(rows, order[i..], candidate, shared, remaining, CORRECTIONS_MAX - |selected|) == chosen
      {
        var row := order[i];
        ScanStep(rows, order, i, candidate, shared, remaining, CORRECTIONS_MAX - |selected|);
        i := i + 1;
        if Some(row) != shared && Matches(rows[row], candidate) && |rows[row].text| <= remaining {
          ghost var rest := Scan(rows, order[i..], candidate, shared, remaining - |rows[row].text|,
            CORRECTIONS_MAX - |selected| - 1);
          AppendsOne(selected, row, rest);
          selected := selected + [row];
          remaining := remaining - |rows[row].text|;
        }
      }
      assert Scan(rows, order[i..], candidate, shared, remaining, CORRECTIONS_MAX - |selected|) == [];
      assert selected + [] == selected;
    }
  }

  lemma AppendsOne(chosen: seq<nat>, row: nat, rest: seq<nat>)
    ensures chosen + ([row] + rest) == (chosen + [row]) + rest
  {
  }
}
