/**
 Concrete timelines. A contract over one year starting 2022-10-10T00:00:00Z
 (1665360000 seconds after the Unix epoch), with textual payloads, and the
 outcome of each branch request, computed by the model.
 */
module Scenarios {
  import opened Wrappers
  import opened ConLib
  import opened Splitting

  const Day: int := 86400
  const Start: int := 1665360000

  /** The contract every scenario starts from: one branch over `[Start, Start + 365 days]`. */
  function Year(): (r: (Contract<string>, nat))
    ensures |r.0.items| == 1 && r.0.items[0] == Branch(1, "world", [], Start, Start + 365 * Day) && r.1 == 2
  {
    NewContract(Start, Start + 365 * Day, "world", "meta", 0)
  }

  /** The boundaries of the year contract: its one branch is the whole snapshot. */
  lemma YearBounds()
    ensures var items := Year().0.items;
            ActivePositions(items) == [0] && MaxEnd(items) == Start + 365 * Day && MinStart(items) == Start
  {
    assert ActivePositions(Year().0.items) == [0];
  }

  /** A request on the year contract that passes both checks is one visit of its one branch. */
  lemma YearBranch(s: int, endAt: Option<int>, data: string)
    requires Start <= s <= Start + 365 * Day
    requires s < (if Unset(endAt) then Start + 365 * Day else endAt.value)
    ensures var c := Year().0;
            var e := if Unset(endAt) then Start + 365 * Day else endAt.value;
            var t := Step(c.items, 0, NewBranch(2, s, e, data), s, e, 3);
            BranchOp(c, s, endAt, data, 2) == Outcome(c.(items := t.items), Some(NewBranch(2, s, e, data)), None, t.next)
  {
    YearBounds();
  }

  /** A new contract holds exactly its one branch, spanning 365 days. */
  lemma NewContractScenario()
    ensures var (c, next) := Year();
            && |c.items| == 1 && c.meta == "meta"
            && c.items[0].Span() == 365 * Day && c.items[0].data == "world"
            && Contains(c.items, c.items[0])
  {
  }

  /** Branching at the very end extends the timeline: the old branch stays active. */
  lemma LinearScenario()
    ensures var (c, next) := Year();
            var r := BranchOp(c, Start + 365 * Day, Some(Start + 417 * Day), "venus", next);
            && r.err.None? && r.branch.Some?
            && r.contract.items == [c.items[0], Branch(2, "venus", [], Start + 365 * Day, Start + 417 * Day)]
            && r.branch.value == r.contract.items[1]
            && r.branch.value.Span() == 52 * Day
  {
    var b0 := Year().0.items[0];
    var s, e := Start + 365 * Day, Start + 417 * Day;
    var head := NewBranch(2, s, e, "venus");
    YearBranch(s, Some(e), "venus");
    assert !Contains([b0], head);
    assert Shift([b0], 0, head, false) == [b0, head];
  }

  /** The history after a request `[Start + k days, unset)`: the year, replaced, then its left remainder and the candidate. */
  function LeftHistory(k: int, data: string): seq<Branch<string>> {
    [Branch(1, "world", [3, 2], Start, Start + 365 * Day),
     Branch(3, "world", [], Start, Start + k * Day),
     Branch(2, data, [], Start + k * Day, Start + 365 * Day)]
  }

  lemma LeftStep(k: int, data: string)
    requires 0 < k < 365
    ensures var b0 := Year().0.items[0];
            Step([b0], 0, NewBranch(2, Start + k * Day, Start + 365 * Day, data), Start + k * Day, Start + 365 * Day, 3) ==
            State(LeftHistory(k, data), 4)
  {
    var b0 := Year().0.items[0];
    var s, e := Start + k * Day, Start + 365 * Day;
    var head := NewBranch(2, s, e, data);
    var left := Branch(3, "world", [], Start, s);
    assert b0.replacedBy + [3] == [3] && [3] + [2] == [3, 2];
    var a1 := Cut(State([b0], 3), 0, Start, s, "world");
    assert a1 == State([b0.(replacedBy := [3]), left], 4);
    assert !Contains(a1.items, head);
    assert Shift(a1.items, 0, head, true) == [b0.(replacedBy := [3, 2]), left, head];
    StepStagesWithLeft([b0], 0, head, s, e, 3);
  }

  /**
   A start `k` days into the year with an unset end: the end defaults to the
   latest active end, and the item splits into a `k`-day left remainder and
   the candidate (the conlib tests use `k = 45` and `k = 1`).
   */
  lemma LeftScenario(k: int, data: string)
    requires 0 < k < 365
    ensures var (c, next) := Year();
            var r := BranchOp(c, Start + k * Day, None, data, next);
            && r == Outcome(c.(items := LeftHistory(k, data)), Some(LeftHistory(k, data)[2]), None, 4)
            && LeftHistory(k, data)[1].Span() == k * Day && LeftHistory(k, data)[2].Span() == (365 - k) * Day
  {
    YearBranch(Start + k * Day, None, data);
    LeftStep(k, data);
  }

  /** The history after a request over the first `k` days: the year, replaced, then the candidate and the right remainder. */
  function RightHistory(k: int, data: string): seq<Branch<string>> {
    [Branch(1, "world", [2, 3], Start, Start + 365 * Day),
     Branch(2, data, [], Start, Start + k * Day),
     Branch(3, "world", [], Start + k * Day, Start + 365 * Day)]
  }

  lemma RightStep(k: int, data: string)
    requires 0 < k < 365
    ensures var b0 := Year().0.items[0];
            Step([b0], 0, NewBranch(2, Start, Start + k * Day, data), Start, Start + k * Day, 3) ==
            State(RightHistory(k, data), 4)
  {
    var b0 := Year().0.items[0];
    var s, e := Start, Start + k * Day;
    var head := NewBranch(2, s, e, data);
    var right := Branch(3, "world", [], e, Start + 365 * Day);
    assert b0.replacedBy + [2] == [2] && [2] + [3] == [2, 3];
    assert !Contains([b0], head);
    var a2 := Shift([b0], 0, head, true);
    assert a2 == Mark([b0, head], 0, [2]);
    assert a2 == [b0.(replacedBy := [2]), head];
    assert Cut(State(a2, 3), 0, e, Start + 365 * Day, "world") == State(RightHistory(k, data), 4);
    StepStagesWithoutLeft([b0], 0, head, s, e, 3);
  }

  /** A request over the first `k` days of the year: the candidate, then a right remainder for the rest. */
  lemma RightScenario(k: int, data: string)
    requires 0 < k < 365
    ensures var (c, next) := Year();
            var r := BranchOp(c, Start, Some(Start + k * Day), data, next);
            && r == Outcome(c.(items := RightHistory(k, data)), Some(RightHistory(k, data)[1]), None, 4)
            && RightHistory(k, data)[2].Span() == (365 - k) * Day
  {
    YearBranch(Start, Some(Start + k * Day), data);
    RightStep(k, data);
  }

  /** The first two stages of the visit in `LeftRightScenario`: the left cut, then the candidate. */
  lemma LeftRightHead()
    ensures var b0 := Year().0.items[0];
            var s := Start + 5 * Day;
            var head := NewBranch(2, s, Start + 45 * Day, "venus");
            var a1 := Cut(State([b0], 3), 0, Start, s, "world");
            a1.next == 4 &&
            Shift(a1.items, 0, head, true) == [b0.(replacedBy := [3, 2]), Branch(3, "world", [], Start, s), head]
  {
    var b0 := Year().0.items[0];
    var s := Start + 5 * Day;
    var head := NewBranch(2, s, Start + 45 * Day, "venus");
    var left := Branch(3, "world", [], Start, s);
    assert b0.replacedBy + [3] == [3] && [3] + [2] == [3, 2];
    var a1 := Cut(State([b0], 3), 0, Start, s, "world");
    assert a1 == State([b0.(replacedBy := [3]), left], 4);
    assert !Contains(a1.items, head);
  }

  /** The last stage of the visit in `LeftRightScenario`: the right cut. */
  lemma LeftRightTail()
    ensures var b0 := Year().0.items[0];
            var s, e := Start + 5 * Day, Start + 45 * Day;
            var a2 := [b0.(replacedBy := [3, 2]), Branch(3, "world", [], Start, s), NewBranch(2, s, e, "venus")];
            Cut(State(a2, 4), 0, e, Start + 365 * Day, "world") ==
            State([b0.(replacedBy := [3, 2, 4]), a2[1], a2[2], Branch(4, "world", [], e, Start + 365 * Day)], 5)
  {
    var b0 := Year().0.items[0];
    var s, e := Start + 5 * Day, Start + 45 * Day;
    var a2 := [b0.(replacedBy := [3, 2]), Branch(3, "world", [], Start, s), NewBranch(2, s, e, "venus")];
    assert [3, 2] + [4] == [3, 2, 4];
    assert forall i :: 0 <= i < |a2| ==> a2[i].id < 4;
    assert Mark(a2, 0, [4]) == [b0.(replacedBy := [3, 2, 4]), a2[1], a2[2]];
  }

  /** The one visit of the loop in `LeftRightScenario`. */
  lemma LeftRightStep()
    ensures var b0 := Year().0.items[0];
            Step([b0], 0, NewBranch(2, Start + 5 * Day, Start + 45 * Day, "venus"), Start + 5 * Day, Start + 45 * Day, 3) ==
            State([b0.(replacedBy := [3, 2, 4]),
                   Branch(3, "world", [], Start, Start + 5 * Day),
                   NewBranch(2, Start + 5 * Day, Start + 45 * Day, "venus"),
                   Branch(4, "world", [], Start + 45 * Day, Start + 365 * Day)], 5)
  {
    var b0 := Year().0.items[0];
    var s, e := Start + 5 * Day, Start + 45 * Day;
    var head := NewBranch(2, s, e, "venus");
    var left := Branch(3, "world", [], Start, s);
    var right := Branch(4, "world", [], e, Start + 365 * Day);
    LeftRightHead();
    LeftRightTail();
    StepStagesWithLeft([b0], 0, head, s, e, 3);
  }

  /** The history `LeftRightScenario` expects: the year, replaced, then left remainder, candidate, right remainder. */
  function LeftRightHistory(): seq<Branch<string>> {
    [Branch(1, "world", [3, 2, 4], Start, Start + 365 * Day),
     Branch(3, "world", [], Start, Start + 5 * Day),
     Branch(2, "venus", [], Start + 5 * Day, Start + 45 * Day),
     Branch(4, "world", [], Start + 45 * Day, Start + 365 * Day)]
  }

  /** A request strictly inside the year: left remainder, candidate, right remainder, in that order. */
  lemma LeftRightScenario()
    ensures var (c, next) := Year();
            var r := BranchOp(c, Start + 5 * Day, Some(Start + 45 * Day), "venus", next);
            r == Outcome(c.(items := LeftRightHistory()), Some(LeftRightHistory()[2]), None, 5)
  {
    YearBranch(Start + 5 * Day, Some(Start + 45 * Day), "venus");
    LeftRightStep();
  }

  /** The history after two requests with unset ends, one and three days into the year. */
  function TwoStepHistory(d1: string, d2: string): seq<Branch<string>> {
    [Branch(1, "world", [3, 2], Start, Start + 365 * Day),
     Branch(3, "world", [], Start, Start + Day),
     Branch(2, d1, [5, 4], Start + Day, Start + 365 * Day),
     Branch(5, d1, [], Start + Day, Start + 3 * Day),
     Branch(4, d2, [], Start + 3 * Day, Start + 365 * Day)]
  }

  lemma LeftHistoryActive(d1: string)
    ensures ActivePositions(LeftHistory(1, d1)) == [1, 2]
  {
    var items := LeftHistory(1, d1);
    var one, two := items[..1], items[..2];
    assert two[..1] == one && items[..2] == two && one[..0] == [];
    assert ActivePositions(one) == [];
    assert ActivePositions(two) == ActivePositions(one) + [1];
    assert ActivePositions(items) == ActivePositions(two) + [2];
  }

  lemma LeftHistoryEnd(d1: string)
    ensures MaxEnd(LeftHistory(1, d1)) == Start + 365 * Day
  {
    var items := LeftHistory(1, d1);
    assert items[2].Active();
    assert forall i :: 0 <= i < |items| ==> items[i].endAt <= Start + 365 * Day;
  }

  lemma LeftHistoryStart(d1: string)
    ensures MinStart(LeftHistory(1, d1)) == Start
  {
    var items := LeftHistory(1, d1);
    assert items[1].Active();
    assert forall i :: 0 <= i < |items| ==> Start <= items[i].startAt;
  }

  /** The boundaries after the first request: two active branches that still cover the year. */
  lemma LeftHistoryBounds(d1: string)
    ensures var items := LeftHistory(1, d1);
            ActivePositions(items) == [1, 2] && MaxEnd(items) == Start + 365 * Day && MinStart(items) == Start
  {
    LeftHistoryActive(d1);
    LeftHistoryEnd(d1);
    LeftHistoryStart(d1);
  }

  /** The second request visits the one-day left remainder (untouched) and the candidate of the first (split). */
  lemma TwoStepVisits(d1: string, d2: string)
    ensures var s, e := Start + 3 * Day, Start + 365 * Day;
            Attach(LeftHistory(1, d1), [1, 2], NewBranch(4, s, e, d2), s, e, 5) == State(TwoStepHistory(d1, d2), 6)
  {
    var items := LeftHistory(1, d1);
    var s, e := Start + 3 * Day, Start + 365 * Day;
    var head := NewBranch(4, s, e, d2);
    StepUntouched(items, 1, head, s, e, 5);
    var left := Branch(5, d1, [], Start + Day, s);
    var marked := items[2 := items[2].(replacedBy := [5])];
    assert items[2].replacedBy + [5] == [5] && [5] + [4] == [5, 4];
    var a1 := Cut(State(items, 5), 2, Start + Day, s, d1);
    assert a1 == State(marked + [left], 6);
    assert !Contains(a1.items, head);
    assert Shift(a1.items, 2, head, true) == TwoStepHistory(d1, d2);
    StepStagesWithLeft(items, 2, head, s, e, 5);
    assert Step(items, 2, head, s, e, 5) == State(TwoStepHistory(d1, d2), 6);
    assert [1, 2][1..] == [2] && [2][1..] == [];
  }

  /**
   Two requests in a row, one day and then three days into the year, both
   with unset ends: the second only splits the candidate of the first, and
   leaves the earlier one-day remainder alone.
   */
  lemma TwoStepScenario(d1: string, d2: string)
    ensures var r1 := BranchOp(Year().0, Start + Day, None, d1, 2);
            var r2 := BranchOp(r1.contract, Start + 3 * Day, None, d2, r1.next);
            && r2 == Outcome(Year().0.(items := TwoStepHistory(d1, d2)), Some(TwoStepHistory(d1, d2)[4]), None, 6)
            && TwoStepHistory(d1, d2)[2].Span() == 364 * Day && TwoStepHistory(d1, d2)[1].Span() == Day
            && TwoStepHistory(d1, d2)[4].Span() == 362 * Day && TwoStepHistory(d1, d2)[3].Span() == 2 * Day
  {
    LeftScenario(1, d1);
    LeftHistoryBounds(d1);
    TwoStepVisits(d1, d2);
  }

  /** An end equal to or before the start is refused with the candidate, and nothing is recorded. */
  lemma SpansNothingScenario()
    ensures var (c, next) := Year();
            var r := BranchOp(c, Start, Some(Start), "venus", next);
            var r2 := BranchOp(c, Start, Some(Start - Day), "venus", next);
            && r.err == Some(EmptySpan) && r.contract == c && r.branch.Some?
            && r2.err == Some(EmptySpan) && r2.contract == c && r2.branch.Some?
  {
    YearEmptySpan(Start);
    YearEmptySpan(Start - Day);
  }

  lemma YearEmptySpan(e: int)
    requires Start - Day <= e <= Start
    ensures var r := BranchOp(Year().0, Start, Some(e), "venus", 2);
            r.err == Some(EmptySpan) && r.contract == Year().0 && r.branch.Some?
  {
    YearBounds();
  }

  /**
   A start 52 days after the end is out of the boundary, and so is a start
   37 days before the contract (2022-09-03, the start date truncated to a
   multiple of 52 days since the zero time).
   */
  lemma OutOfBoundaryScenario()
    ensures var (c, next) := Year();
            var r := BranchOp(c, Start + 417 * Day, None, "venus", next);
            var r2 := BranchOp(c, Start - 37 * Day, None, "venus", next);
            && r.err == Some(OutOfBoundary(Start + 417 * Day, Start, Start + 365 * Day)) && r.contract == c && r.branch.None?
            && r2.err == Some(OutOfBoundary(Start - 37 * Day, Start, Start + 365 * Day)) && r2.contract == c
  {
    YearBounds();
  }
}
