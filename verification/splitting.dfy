/**
 What one iteration of the branching loop does to one active item: which
 remainders it cuts, whom it records as successors, and how the item's
 duration is shared out between the pieces.
 */
module Splitting {
  import opened ConUtil
  import opened ConLib

  /** `Shift` appends the branch only when its id is new and records it as a successor when asked. */
  lemma ShiftIsMarkAndAppend<D>(items: seq<Branch<D>>, oldPos: nat, added: Branch<D>, replace: bool)
    requires oldPos < |items|
    ensures Shift(items, oldPos, added, replace) ==
            Mark(items, oldPos, if replace then [added.id] else []) + (if Contains(items, added) then [] else [added])
  {
    var r := Shift(items, oldPos, added, replace);
    var m := Mark(items, oldPos, if replace then [added.id] else []) + (if Contains(items, added) then [] else [added]);
    assert |r| == |m|;
    forall i | 0 <= i < |r| ensures r[i] == m[i] {
      if i == oldPos {
      } else if i < |items| {
      } else {
      }
    }
  }

  /** Marking a prefix commutes with appending. */
  lemma MarkAppend<D>(items: seq<Branch<D>>, p: nat, ids: seq<nat>, tail: seq<Branch<D>>)
    requires p < |items|
    ensures Mark(items + tail, p, ids) == Mark(items, p, ids) + tail
  {
    var a := Mark(items + tail, p, ids);
    var b := Mark(items, p, ids) + tail;
    assert |a| == |b|;
    forall i | 0 <= i < |a| ensures a[i] == b[i] {
      if i < |items| {
      } else {
        assert a[i] == (items + tail)[i];
      }
    }
  }

  lemma ConcatAssoc<X>(a: seq<X>, b: seq<X>, c: seq<X>)
    ensures a + (b + c) == a + b + c
  {
  }

  /** Marking with no ids changes nothing. */
  lemma MarkNothing<D>(items: seq<Branch<D>>, p: nat)
    requires p < |items|
    ensures Mark(items, p, []) == items
  {
    assert items[p].replacedBy + [] == items[p].replacedBy;
  }

  /** Two markings of the same branch add up. */
  lemma MarkTwice<D>(items: seq<Branch<D>>, p: nat, ids: seq<nat>, ids': seq<nat>)
    requires p < |items|
    ensures Mark(Mark(items, p, ids), p, ids') == Mark(items, p, ids + ids')
  {
    var a := Mark(Mark(items, p, ids), p, ids');
    var b := Mark(items, p, ids + ids');
    assert a[p].replacedBy == items[p].replacedBy + ids + ids';
    assert |a| == |b|;
    forall i | 0 <= i < |a| ensures a[i] == b[i] {
    }
  }

  /** A branch found at some position is contained. */
  lemma ContainsAt<D>(items: seq<Branch<D>>, k: nat, b: Branch<D>)
    requires k < |items| && items[k].id == b.id
    ensures Contains(items, b)
  {
  }

  /** Marking never changes which ids are present. */
  lemma ContainsAfterMark<D>(items: seq<Branch<D>>, p: nat, ids: seq<nat>, b: Branch<D>)
    requires p < |items|
    ensures Contains(Mark(items, p, ids), b) == Contains(items, b)
  {
    var m := Mark(items, p, ids);
    if Contains(items, b) {
      var i :| 0 <= i < |items| && items[i].id == b.id;
      assert m[i].id == b.id;
    }
    if Contains(m, b) {
      var i :| 0 <= i < |m| && m[i].id == b.id;
      assert items[i].id == b.id;
    }
  }

  /** Appending branches with other ids does not change whether `b` is present. */
  lemma ContainsAfterAppend<D>(items: seq<Branch<D>>, tail: seq<Branch<D>>, b: Branch<D>)
    requires forall k :: 0 <= k < |tail| ==> tail[k].id != b.id
    ensures Contains(items + tail, b) == Contains(items, b)
  {
    var a := items + tail;
    if Contains(a, b) {
      assert forall k :: |items| <= k < |a| ==> a[k] == tail[k - |items|];
      var i :| 0 <= i < |a| && a[i].id == b.id;
      assert i < |items|;
      assert items[i] == a[i];
    }
    if Contains(items, b) {
      var i :| 0 <= i < |items| && items[i].id == b.id;
      assert a[i] == items[i];
    }
  }

  /**
   Decisions of the loop body for an item `[itemStart, itemEnd]` and a request
   `[s, e]` with positive span, in terms of how the intervals lie: the item is
   acted on when they overlap or the request starts at the item's end; it is
   an extension exactly in the second case without overlap; a left remainder
   is cut exactly when `s` is strictly inside the item and then ends at `s`;
   a right remainder exactly when `e` is strictly inside the item.
   */
  lemma Decisions(itemStart: int, itemEnd: int, s: int, e: int)
    requires s < e
    ensures var overlap := Overlap(itemStart, itemEnd, s, e);
            var isExtension := overlap == 0 && s == itemEnd;
            var acted := overlap != 0 || isExtension;
            var ldelta := MaxDuration(0, s - itemStart);
            var rdelta := MaxDuration(0, itemEnd - e);
            && (acted <==> SharesInterior(itemStart, itemEnd, s, e) || s == itemEnd)
            && (isExtension <==> !SharesInterior(itemStart, itemEnd, s, e) && s == itemEnd)
            && (acted && ldelta != 0 && ldelta != itemEnd - itemStart <==> itemStart < s < itemEnd)
            && (acted && rdelta != 0 <==> itemStart < e < itemEnd)
            && (itemStart < s < itemEnd ==> itemStart + ldelta == s)
  {
  }

  /**
   Span conservation on a true overlap: the left remainder, the overlap and
   the right remainder account for the whole item, and every remainder that
   is cut has a positive span.
   */
  lemma SpanConservation(itemStart: int, itemEnd: int, s: int, e: int)
    requires s < e && SharesInterior(itemStart, itemEnd, s, e)
    ensures var ldelta := MaxDuration(0, s - itemStart);
            var rdelta := MaxDuration(0, itemEnd - e);
            var leftSplit := ldelta != 0 && ldelta != itemEnd - itemStart;
            var rightSplit := rdelta != 0;
            && (leftSplit ==> ldelta > 0)
            && (rightSplit ==> rdelta > 0)
            && (if leftSplit then ldelta else 0) + Overlap(itemStart, itemEnd, s, e) + (if rightSplit then rdelta else 0)
               == itemEnd - itemStart
  {
  }

  /** The loop body on a touched item that starts before the request: left cut, head, right cut. */
  lemma StepStagesWithLeft<D>(items: seq<Branch<D>>, p: nat, head: Branch<D>, s: int, e: int, next: nat)
    requires p < |items| && s < e && Touches(items[p], s, e) && items[p].startAt < s < items[p].endAt
    ensures var item := items[p];
            var a1 := Cut(State(items, next), p, item.startAt, s, item.data);
            var a2 := State(Shift(a1.items, p, head, SharesInterior(item.startAt, item.endAt, s, e)), a1.next);
            Step(items, p, head, s, e, next) == if item.startAt < e < item.endAt then Cut(a2, p, e, item.endAt, item.data) else a2
  {
    Decisions(items[p].startAt, items[p].endAt, s, e);
  }

  /** The loop body on a touched item that does not start before the request: head, right cut. */
  lemma StepStagesWithoutLeft<D>(items: seq<Branch<D>>, p: nat, head: Branch<D>, s: int, e: int, next: nat)
    requires p < |items| && s < e && Touches(items[p], s, e) && !(items[p].startAt < s < items[p].endAt)
    ensures var item := items[p];
            var a2 := State(Shift(items, p, head, SharesInterior(item.startAt, item.endAt, s, e)), next);
            Step(items, p, head, s, e, next) == if item.startAt < e < item.endAt then Cut(a2, p, e, item.endAt, item.data) else a2
  {
    Decisions(items[p].startAt, items[p].endAt, s, e);
  }

  /** The loop body leaves an item it does not touch, and the whole history, alone. */
  lemma StepUntouched<D>(items: seq<Branch<D>>, p: nat, head: Branch<D>, s: int, e: int, next: nat)
    requires p < |items| && s < e && !Touches(items[p], s, e)
    ensures Step(items, p, head, s, e, next) == State(items, next)
  {
    Decisions(items[p].startAt, items[p].endAt, s, e);
  }

  /**
   Reference description of the loop body for the item at position `p`,
   without the Go delta arithmetic: cut `[item.startAt, s]` (id `next`) when
   `s` lies strictly inside the item, attach `head` when the item is touched
   and `head` is not yet present, cut `[e, item.endAt]` (the following id)
   when `e` lies strictly inside the item, and record as successors of the
   item the left remainder, `head` unless this is an extension, and the right
   remainder, in that order. Nothing else changes.
   */
  ghost function Reference<D>(items: seq<Branch<D>>, p: nat, head: Branch<D>, s: int, e: int, next: nat): State<D>
    requires p < |items|
  {
    var item := items[p];
    var hasLeft := item.startAt < s < item.endAt;
    var hasRight := item.startAt < e < item.endAt;
    var left := if hasLeft then [NewBranch(next, item.startAt, s, item.data)] else [];
    var mid := if Touches(item, s, e) && !Contains(items, head) then [head] else [];
    var right := if hasRight then [NewBranch(next + |left|, e, item.endAt, item.data)] else [];
    var marks := (if hasLeft then [next] else []) +
                 (if SharesInterior(item.startAt, item.endAt, s, e) then [head.id] else []) +
                 (if hasRight then [next + |left|] else []);
    State(Mark(items, p, marks) + left + mid + right, next + |left| + |right|)
  }

  /** `Reference` spelled out on its named pieces. */
  lemma ReferencePieces<D>(items: seq<Branch<D>>, p: nat, head: Branch<D>, s: int, e: int, next: nat,
                           marks: seq<nat>, left: seq<Branch<D>>, mid: seq<Branch<D>>, right: seq<Branch<D>>)
    requires p < |items|
    requires var item := items[p];
             && left == (if item.startAt < s < item.endAt then [NewBranch(next, item.startAt, s, item.data)] else [])
             && mid == (if Touches(item, s, e) && !Contains(items, head) then [head] else [])
             && right == (if item.startAt < e < item.endAt then [NewBranch(next + |left|, e, item.endAt, item.data)] else [])
             && marks == (if item.startAt < s < item.endAt then [next] else []) +
                         (if SharesInterior(item.startAt, item.endAt, s, e) then [head.id] else []) +
                         (if item.startAt < e < item.endAt then [next + |left|] else [])
    ensures Reference(items, p, head, s, e, next) == State(Mark(items, p, marks) + left + mid + right, next + |left| + |right|)
  {
  }

  lemma StepShapeUntouched<D>(items: seq<Branch<D>>, p: nat, head: Branch<D>, s: int, e: int, next: nat)
    requires p < |items| && s < e && !Touches(items[p], s, e)
    ensures Step(items, p, head, s, e, next) == Reference(items, p, head, s, e, next)
  {
    StepUntouched(items, p, head, s, e, next);
    var item := items[p];
    assert !(item.startAt < s < item.endAt) && !(item.startAt < e < item.endAt);
    assert !SharesInterior(item.startAt, item.endAt, s, e);
    MarkNothing(items, p);
    var none: seq<nat> := [];
    assert none + none + none == none;
  }

  /** Attaching the head after the left stage: marks the item (unless an extension) and appends the head if new. */
  lemma HeadStage<D>(items: seq<Branch<D>>, p: nat, ids: seq<nat>, tail: seq<Branch<D>>, head: Branch<D>, replace: bool)
    requires p < |items|
    requires forall k :: 0 <= k < |tail| ==> tail[k].id != head.id
    ensures Shift(Mark(items, p, ids) + tail, p, head, replace) ==
            Mark(items, p, ids + (if replace then [head.id] else [])) + tail + (if Contains(items, head) then [] else [head])
  {
    var hm: seq<nat> := if replace then [head.id] else [];
    ShiftIsMarkAndAppend(Mark(items, p, ids) + tail, p, head, replace);
    MarkAppend(Mark(items, p, ids), p, hm, tail);
    MarkTwice(items, p, ids, hm);
    ContainsAfterAppend(Mark(items, p, ids), tail, head);
    ContainsAfterMark(items, p, ids, head);
  }

  /** Cutting a remainder with a fresh id after earlier stages: one more mark, one more branch. */
  lemma CutStage<D>(items: seq<Branch<D>>, p: nat, ids: seq<nat>, tail: seq<Branch<D>>, next: nat,
                    startAt: int, endAt: int, data: D)
    requires p < |items|
    requires forall i :: 0 <= i < |items| ==> items[i].id < next
    requires forall k :: 0 <= k < |tail| ==> tail[k].id < next
    ensures Cut(State(Mark(items, p, ids) + tail, next), p, startAt, endAt, data) ==
            State(Mark(items, p, ids + [next]) + tail + [NewBranch(next, startAt, endAt, data)], next + 1)
  {
    var m := Mark(items, p, ids) + tail;
    assert forall i :: 0 <= i < |m| ==> m[i].id < next by {
      forall i | 0 <= i < |m| ensures m[i].id < next {
        if i >= |items| {
          assert m[i] == tail[i - |items|];
        }
      }
    }
    MarkAppend(Mark(items, p, ids), p, [next], tail);
    MarkTwice(items, p, ids, [next]);
  }

  /** The loop body on a touched item as its three stages, each through `Cut` or `Shift`.
      Proof scaffolding only: it bridges `Step` and the specification `Reference` in `StepShape`. */
  ghost function Stages<D>(items: seq<Branch<D>>, p: nat, head: Branch<D>, s: int, e: int, next: nat): State<D>
    requires p < |items|
  {
    var item := items[p];
    var a1 := if item.startAt < s < item.endAt then Cut(State(items, next), p, item.startAt, s, item.data) else State(items, next);
    var a2 := State(Shift(a1.items, p, head, SharesInterior(item.startAt, item.endAt, s, e)), a1.next);
    if item.startAt < e < item.endAt then Cut(a2, p, e, item.endAt, item.data) else a2
  }

  lemma StepIsStages<D>(items: seq<Branch<D>>, p: nat, head: Branch<D>, s: int, e: int, next: nat)
    requires p < |items| && s < e && Touches(items[p], s, e)
    ensures Step(items, p, head, s, e, next) == Stages(items, p, head, s, e, next)
  {
    if items[p].startAt < s < items[p].endAt {
      StepStagesWithLeft(items, p, head, s, e, next);
    } else {
      StepStagesWithoutLeft(items, p, head, s, e, next);
    }
  }

  /** The left cut and the head attachment together, as marks and appended branches. */
  lemma LeftAndHeadStages<D>(items: seq<Branch<D>>, p: nat, head: Branch<D>, s: int, e: int, next: nat)
    requires p < |items| && head.id < next
    requires forall i :: 0 <= i < |items| ==> items[i].id < next
    ensures var item := items[p];
            var hasLeft := item.startAt < s < item.endAt;
            var shares := SharesInterior(item.startAt, item.endAt, s, e);
            var left := if hasLeft then [NewBranch(next, item.startAt, s, item.data)] else [];
            var mid := if !Contains(items, head) then [head] else [];
            var a1 := if hasLeft then Cut(State(items, next), p, item.startAt, s, item.data) else State(items, next);
            State(Shift(a1.items, p, head, shares), a1.next) ==
            State(Mark(items, p, (if hasLeft then [next] else []) + (if shares then [head.id] else [])) + left + mid, next + |left|)
  {
    var item := items[p];
    var hasLeft := item.startAt < s < item.endAt;
    var shares := SharesInterior(item.startAt, item.endAt, s, e);
    var left := if hasLeft then [NewBranch(next, item.startAt, s, item.data)] else [];
    var lm: seq<nat> := if hasLeft then [next] else [];
    LeftStage(items, p, hasLeft, next, item.startAt, s, item.data);
    HeadStage(items, p, lm, left, head, shares);
  }

  /** The optional left cut, on a history whose ids are all below the counter. */
  lemma LeftStage<D>(items: seq<Branch<D>>, p: nat, hasLeft: bool, next: nat, startAt: int, endAt: int, data: D)
    requires p < |items|
    requires forall i :: 0 <= i < |items| ==> items[i].id < next
    ensures var lm: seq<nat> := if hasLeft then [next] else [];
            var left := if hasLeft then [NewBranch(next, startAt, endAt, data)] else [];
            (if hasLeft then Cut(State(items, next), p, startAt, endAt, data) else State(items, next)) ==
            State(Mark(items, p, lm) + left, next + |left|)
  {
    MarkNothing(items, p);
    if hasLeft {
      CutStage(items, p, [], [], next, startAt, endAt, data);
      assert [] + [next] == [next];
    }
  }

  /** The right cut after the first two stages. */
  lemma RightStage<D>(items: seq<Branch<D>>, p: nat, ids: seq<nat>, left: seq<Branch<D>>, mid: seq<Branch<D>>,
                      next: nat, startAt: int, endAt: int, data: D)
    requires p < |items|
    requires forall i :: 0 <= i < |items| ==> items[i].id < next
    requires forall k :: 0 <= k < |left| ==> left[k].id < next
    requires forall k :: 0 <= k < |mid| ==> mid[k].id < next
    ensures Cut(State(Mark(items, p, ids) + left + mid, next), p, startAt, endAt, data) ==
            State(Mark(items, p, ids + [next]) + left + mid + [NewBranch(next, startAt, endAt, data)], next + 1)
  {
    ConcatAssoc(Mark(items, p, ids), left, mid);
    CutStage(items, p, ids, left + mid, next, startAt, endAt, data);
    ConcatAssoc(Mark(items, p, ids + [next]), left, mid);
  }

  /** `Reference` on an item the request touches, where the head is attached unless already present. */
  ghost function TouchedShape<D>(items: seq<Branch<D>>, p: nat, head: Branch<D>, s: int, e: int, next: nat): State<D>
    requires p < |items|
  {
    var item := items[p];
    var hasLeft := item.startAt < s < item.endAt;
    var hasRight := item.startAt < e < item.endAt;
    var left := if hasLeft then [NewBranch(next, item.startAt, s, item.data)] else [];
    var mid := if !Contains(items, head) then [head] else [];
    var right := if hasRight then [NewBranch(next + |left|, e, item.endAt, item.data)] else [];
    var marks := (if hasLeft then [next] else []) +
                 (if SharesInterior(item.startAt, item.endAt, s, e) then [head.id] else []) +
                 (if hasRight then [next + |left|] else []);
    State(Mark(items, p, marks) + left + mid + right, next + |left| + |right|)
  }

  /** `TouchedShape` in terms of its pieces, so callers need not unfold it. */
  lemma TouchedPieces<D>(items: seq<Branch<D>>, p: nat, head: Branch<D>, s: int, e: int, next: nat,
                         lm: seq<nat>, hm: seq<nat>, rm: seq<nat>,
                         left: seq<Branch<D>>, mid: seq<Branch<D>>, right: seq<Branch<D>>)
    requires p < |items|
    requires var item := items[p];
             && left == (if item.startAt < s < item.endAt then [NewBranch(next, item.startAt, s, item.data)] else [])
             && mid == (if !Contains(items, head) then [head] else [])
             && right == (if item.startAt < e < item.endAt then [NewBranch(next + |left|, e, item.endAt, item.data)] else [])
             && lm == (if item.startAt < s < item.endAt then [next] else [])
             && hm == (if SharesInterior(item.startAt, item.endAt, s, e) then [head.id] else [])
             && rm == (if item.startAt < e < item.endAt then [next + |left|] else [])
    ensures TouchedShape(items, p, head, s, e, next) == State(Mark(items, p, lm + hm + rm) + left + mid + right, next + |left| + |right|)
  {
  }

  lemma ReferenceTouched<D>(items: seq<Branch<D>>, p: nat, head: Branch<D>, s: int, e: int, next: nat)
    requires p < |items| && Touches(items[p], s, e)
    ensures Reference(items, p, head, s, e, next) == TouchedShape(items, p, head, s, e, next)
  {
  }

  /** The right cut, when the request ends strictly inside the item, applied to the state the first two stages leave. */
  lemma RightShapeCut<D>(items: seq<Branch<D>>, p: nat, head: Branch<D>, s: int, e: int, next: nat, a2: State<D>)
    requires p < |items| && head.id < next
    requires forall i :: 0 <= i < |items| ==> items[i].id < next
    requires var item := items[p];
             var hasLeft := item.startAt < s < item.endAt;
             var left := if hasLeft then [NewBranch(next, item.startAt, s, item.data)] else [];
             var mid := if !Contains(items, head) then [head] else [];
             a2 == State(Mark(items, p, (if hasLeft then [next] else []) +
                                        (if SharesInterior(item.startAt, item.endAt, s, e) then [head.id] else [])) + left + mid,
                         next + |left|)
    requires items[p].startAt < e < items[p].endAt
    ensures Cut(a2, p, e, items[p].endAt, items[p].data) == TouchedShape(items, p, head, s, e, next)
  {
    var item := items[p];
    var hasLeft := item.startAt < s < item.endAt;
    var left := if hasLeft then [NewBranch(next, item.startAt, s, item.data)] else [];
    var mid := if !Contains(items, head) then [head] else [];
    var lm: seq<nat> := if hasLeft then [next] else [];
    var hm: seq<nat> := if SharesInterior(item.startAt, item.endAt, s, e) then [head.id] else [];
    var n := a2.next;
    var rb := NewBranch(n, e, item.endAt, item.data);
    TouchedPieces(items, p, head, s, e, next, lm, hm, [n], left, mid, [rb]);
    assert a2 == State(Mark(items, p, lm + hm) + left + mid, n);
    RightStage(items, p, lm + hm, left, mid, n, e, item.endAt, item.data);
  }

  /** Without a right remainder the first two stages already give the final shape. */
  lemma RightShapeNone<D>(items: seq<Branch<D>>, p: nat, head: Branch<D>, s: int, e: int, next: nat, a2: State<D>)
    requires p < |items| && head.id < next
    requires forall i :: 0 <= i < |items| ==> items[i].id < next
    requires var item := items[p];
             var hasLeft := item.startAt < s < item.endAt;
             var left := if hasLeft then [NewBranch(next, item.startAt, s, item.data)] else [];
             var mid := if !Contains(items, head) then [head] else [];
             a2 == State(Mark(items, p, (if hasLeft then [next] else []) +
                                        (if SharesInterior(item.startAt, item.endAt, s, e) then [head.id] else [])) + left + mid,
                         next + |left|)
    requires !(items[p].startAt < e < items[p].endAt)
    ensures a2 == TouchedShape(items, p, head, s, e, next)
  {
    var item := items[p];
    var hasLeft := item.startAt < s < item.endAt;
    var left := if hasLeft then [NewBranch(next, item.startAt, s, item.data)] else [];
    var mid := if !Contains(items, head) then [head] else [];
    var lm: seq<nat> := if hasLeft then [next] else [];
    var hm: seq<nat> := if SharesInterior(item.startAt, item.endAt, s, e) then [head.id] else [];
    var none: seq<nat> := [];
    assert lm + hm + none == lm + hm;
    var tail := Mark(items, p, lm + hm) + left + mid;
    var noBranch: seq<Branch<D>> := [];
    assert tail + noBranch == tail;
  }

  lemma StagesTouched<D>(items: seq<Branch<D>>, p: nat, head: Branch<D>, s: int, e: int, next: nat)
    requires p < |items| && s < e && head.id < next && Touches(items[p], s, e)
    requires forall i :: 0 <= i < |items| ==> items[i].id < next
    ensures Stages(items, p, head, s, e, next) == TouchedShape(items, p, head, s, e, next)
  {
    var item := items[p];
    var a1 := if item.startAt < s < item.endAt then Cut(State(items, next), p, item.startAt, s, item.data) else State(items, next);
    var a2 := State(Shift(a1.items, p, head, SharesInterior(item.startAt, item.endAt, s, e)), a1.next);
    LeftAndHeadStages(items, p, head, s, e, next);
    if item.startAt < e < item.endAt {
      RightShapeCut(items, p, head, s, e, next, a2);
    } else {
      RightShapeNone(items, p, head, s, e, next, a2);
    }
  }

  lemma StagesIsReference<D>(items: seq<Branch<D>>, p: nat, head: Branch<D>, s: int, e: int, next: nat)
    requires p < |items| && s < e && head.id < next && Touches(items[p], s, e)
    requires forall i :: 0 <= i < |items| ==> items[i].id < next
    ensures Stages(items, p, head, s, e, next) == Reference(items, p, head, s, e, next)
  {
    StagesTouched(items, p, head, s, e, next);
    ReferenceTouched(items, p, head, s, e, next);
  }

  /** The loop body does exactly what the reference description says, given fresh ids. */
  lemma StepShape<D>(items: seq<Branch<D>>, p: nat, head: Branch<D>, s: int, e: int, next: nat)
    requires p < |items| && s < e && head.id < next
    requires forall i :: 0 <= i < |items| ==> items[i].id < next
    ensures Step(items, p, head, s, e, next) == Reference(items, p, head, s, e, next)
  {
    if Touches(items[p], s, e) {
      StepIsStages(items, p, head, s, e, next);
      StagesIsReference(items, p, head, s, e, next);
    } else {
      StepShapeUntouched(items, p, head, s, e, next);
    }
  }

  /** Attaching the same branch twice never adds a second copy of it. */
  lemma ShiftIdempotent<D>(items: seq<Branch<D>>, oldPos: nat, added: Branch<D>)
    requires oldPos < |items|
    ensures Shift(Shift(items, oldPos, added, false), oldPos, added, false) == Shift(items, oldPos, added, false)
    ensures |Shift(Shift(items, oldPos, added, true), oldPos, added, true)| == |Shift(items, oldPos, added, true)|
  {
  }

  /**
   The extension case: a request that starts exactly where the item ends and
   shares no time with it attaches the candidate (once) but leaves the item
   active and unchanged, with no remainder cut.
   */
  lemma ExtensionStep<D>(items: seq<Branch<D>>, p: nat, head: Branch<D>, s: int, e: int, next: nat)
    requires p < |items| && s < e && head.id < next && IsExtension(items[p], s, e)
    requires forall i :: 0 <= i < |items| ==> items[i].id < next
    ensures var r := Step(items, p, head, s, e, next);
            && r.items[p] == items[p] && r.next == next
            && r.items == items + (if Contains(items, head) then [] else [head])
  {
    var item := items[p];
    var none: seq<Branch<D>> := [];
    var mid := if Touches(item, s, e) && !Contains(items, head) then [head] else [];
    var noIds: seq<nat> := [];
    assert noIds + noIds + noIds == noIds;
    ReferencePieces(items, p, head, s, e, next, noIds, none, mid, none);
    MarkNothing(items, p);
    StepShape(items, p, head, s, e, next);
    assert items + none == items && items + mid + none == items + mid;
  }
}
