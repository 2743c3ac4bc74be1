/**
 Span accounting. `Explain` sums the spans of the active branches; these
 lemmas show how one visit of the `Branch` loop changes that sum: the overlap
 with the request leaves the active timeline, and the candidate's own span
 enters it the first time the candidate is attached.
 */
module Spans {
  import opened Wrappers
  import opened ConUtil
  import opened ConLib
  import opened Splitting
  import opened Invariants

  /** What a single branch adds to the active span. */
  function Contribution<D>(b: Branch<D>): int {
    if b.Active() then b.Span() else 0
  }

  lemma {:induction false} ActiveSpanAppend<D>(a: seq<Branch<D>>, b: seq<Branch<D>>)
    ensures ActiveSpan(a + b) == ActiveSpan(a) + ActiveSpan(b)
    decreases |b|
  {
    if |b| > 0 {
      var b' := b[..|b| - 1];
      assert (a + b)[..|a + b| - 1] == a + b';
      ActiveSpanAppend(a, b');
      assert b[..|b| - 1] == b';
    } else {
      assert a + b == a;
    }
  }

  lemma ActiveSpanPieces<D>(m: seq<Branch<D>>, left: seq<Branch<D>>, mid: seq<Branch<D>>, right: seq<Branch<D>>)
    ensures ActiveSpan(m + left + mid + right) == ActiveSpan(m) + ActiveSpan(left) + ActiveSpan(mid) + ActiveSpan(right)
  {
    ActiveSpanAppend(m + left + mid, right);
    ActiveSpanAppend(m + left, mid);
    ActiveSpanAppend(m, left);
  }

  /** Replacing one branch changes the active span by the difference of the two contributions. */
  lemma ActiveSpanUpdate<D>(items: seq<Branch<D>>, p: nat, b: Branch<D>)
    requires p < |items|
    ensures ActiveSpan(items[p := b]) == ActiveSpan(items) - Contribution(items[p]) + Contribution(b)
  {
    var front, back := items[..p], items[p + 1..];
    assert items == front + [items[p]] + back;
    assert items[p := b] == front + [b] + back;
    ActiveSpanAppend(front + [items[p]], back);
    ActiveSpanAppend(front, [items[p]]);
    ActiveSpanAppend(front + [b], back);
    ActiveSpanAppend(front, [b]);
    assert [items[p]][..0] == [] && [b][..0] == [];
  }

  /** Recording successors on an active branch retires its span; recording none changes nothing. */
  lemma ActiveSpanMark<D>(items: seq<Branch<D>>, p: nat, ids: seq<nat>)
    requires p < |items| && items[p].Active()
    ensures ActiveSpan(Mark(items, p, ids)) == ActiveSpan(items) - (if |ids| > 0 then items[p].Span() else 0)
  {
    ActiveSpanUpdate(items, p, items[p].(replacedBy := items[p].replacedBy + ids));
  }

  /**
   What the item loses to the request is exactly the overlap: its span, minus
   the remainders cut on either side, when the two share time; nothing otherwise.
   */
  lemma RetiredIsOverlap(itemStart: int, itemEnd: int, s: int, e: int)
    requires s < e
    ensures (if SharesInterior(itemStart, itemEnd, s, e) then itemEnd - itemStart else 0)
            - (if itemStart < s < itemEnd then s - itemStart else 0)
            - (if itemStart < e < itemEnd then itemEnd - e else 0)
            == Overlap(itemStart, itemEnd, s, e)
  {
    if SharesInterior(itemStart, itemEnd, s, e) {
      SpanConservation(itemStart, itemEnd, s, e);
      Decisions(itemStart, itemEnd, s, e);
    }
  }

  /** A history of one branch sums to that branch's contribution. */
  lemma ActiveSpanOne<D>(b: Branch<D>)
    ensures ActiveSpan([b]) == Contribution(b)
  {
    assert [b][..0] == [];
  }

  /** The remainders and the candidate contribute their own spans. */
  lemma RemainderSpans<D>(item: Branch<D>, head: Branch<D>, s: int, e: int, next: nat,
                      left: seq<Branch<D>>, mid: seq<Branch<D>>, right: seq<Branch<D>>)
    requires head.startAt == s && head.endAt == e && head.Active()
    requires left == (if item.startAt < s < item.endAt then [NewBranch(next, item.startAt, s, item.data)] else [])
    requires |mid| == 0 || mid == [head]
    requires right == (if item.startAt < e < item.endAt then [NewBranch(next + |left|, e, item.endAt, item.data)] else [])
    ensures ActiveSpan(left) == (if item.startAt < s < item.endAt then s - item.startAt else 0)
    ensures ActiveSpan(right) == (if item.startAt < e < item.endAt then item.endAt - e else 0)
    ensures ActiveSpan(mid) == (if |mid| > 0 then e - s else 0)
  {
    if |left| > 0 { ActiveSpanOne(left[0]); }
    if |right| > 0 { ActiveSpanOne(right[0]); }
    if |mid| > 0 { ActiveSpanOne(mid[0]); }
  }

  /** The span accounting of one visit, on its pieces: marked history, left remainder, head, right remainder. */
  lemma PiecesSpan<D>(items: seq<Branch<D>>, p: nat, head: Branch<D>, s: int, e: int, next: nat,
                      marks: seq<nat>, left: seq<Branch<D>>, mid: seq<Branch<D>>, right: seq<Branch<D>>)
    requires p < |items| && items[p].Active() && s < e
    requires head.startAt == s && head.endAt == e && head.Active()
    requires var item := items[p];
             && left == (if item.startAt < s < item.endAt then [NewBranch(next, item.startAt, s, item.data)] else [])
             && mid == (if Touches(item, s, e) && !Contains(items, head) then [head] else [])
             && right == (if item.startAt < e < item.endAt then [NewBranch(next + |left|, e, item.endAt, item.data)] else [])
             && (|marks| > 0 <==> SharesInterior(item.startAt, item.endAt, s, e))
    ensures var item := items[p];
            ActiveSpan(Mark(items, p, marks) + left + mid + right) ==
            ActiveSpan(items) - Overlap(item.startAt, item.endAt, s, e) +
            (if Touches(item, s, e) && !Contains(items, head) then e - s else 0)
  {
    var item := items[p];
    ActiveSpanPieces(Mark(items, p, marks), left, mid, right);
    ActiveSpanMark(items, p, marks);
    RemainderSpans(item, head, s, e, next, left, mid, right);
    RetiredIsOverlap(item.startAt, item.endAt, s, e);
  }

  /**
   The reference description of one visit: the active span loses the overlap
   of the item with `[s, e]` and gains the head's span when the head is
   appended here.
   */
  lemma ReferenceSpan<D>(items: seq<Branch<D>>, p: nat, head: Branch<D>, next: nat)
    requires p < |items| && items[p].Active() && head.startAt < head.endAt && head.Active()
    ensures var item := items[p];
            ActiveSpan(Reference(items, p, head, head.startAt, head.endAt, next).items) ==
            ActiveSpan(items) - Overlap(item.startAt, item.endAt, head.startAt, head.endAt) +
            (if Touches(item, head.startAt, head.endAt) && !Contains(items, head) then head.Span() else 0)
  {
    var s, e := head.startAt, head.endAt;
    var t := Reference(items, p, head, s, e, next);
    var item := items[p];
    var hasLeft := item.startAt < s < item.endAt;
    var hasRight := item.startAt < e < item.endAt;
    var shares := SharesInterior(item.startAt, item.endAt, s, e);
    var left := if hasLeft then [NewBranch(next, item.startAt, s, item.data)] else [];
    var mid := if Touches(item, s, e) && !Contains(items, head) then [head] else [];
    var right := if hasRight then [NewBranch(next + |left|, e, item.endAt, item.data)] else [];
    var lm: seq<nat> := if hasLeft then [next] else [];
    var hm: seq<nat> := if shares then [head.id] else [];
    var rm: seq<nat> := if hasRight then [next + |left|] else [];
    var marks := lm + hm + rm;
    ReferencePieces(items, p, head, s, e, next, marks, left, mid, right);
    assert |marks| == 0 <==> !shares;
    PiecesSpan(items, p, head, s, e, next, marks, left, mid, right);
  }

  /**
   Span conservation for one visit of the loop: the left remainder, the
   overlap and the right remainder account for the whole item, so the active
   span changes by exactly minus the overlap, plus the candidate's span if
   this visit attaches it.
   */
  lemma StepSpan<D>(items: seq<Branch<D>>, p: nat, head: Branch<D>, s: int, e: int, next: nat)
    requires p < |items| && items[p].Active() && s < e && head.id < next
    requires head.startAt == s && head.endAt == e && head.Active()
    requires forall i :: 0 <= i < |items| ==> items[i].id < next
    ensures var item := items[p];
            ActiveSpan(Step(items, p, head, s, e, next).items) ==
            ActiveSpan(items) - Overlap(item.startAt, item.endAt, s, e) +
            (if Touches(item, s, e) && !Contains(items, head) then e - s else 0)
  {
    StepShape(items, p, head, s, e, next);
    ReferenceSpan(items, p, head, next);
  }

  /** Time of `[s, e]` covered by the branches at the snapshot positions, summed. */
  function Covered<D>(items: seq<Branch<D>>, snap: seq<nat>, s: int, e: int): int
    requires InRange(items, snap)
    decreases |snap|
  {
    if |snap| == 0 then 0
    else
      assert InRange(items, snap[1..]) by {
        assert forall k :: 0 <= k < |snap| - 1 ==> snap[1..][k] == snap[k + 1];
      }
      Overlap(items[snap[0]].startAt, items[snap[0]].endAt, s, e) + Covered(items, snap[1..], s, e)
  }

  lemma {:induction false} CoveredFrame<D>(items: seq<Branch<D>>, items': seq<Branch<D>>, snap: seq<nat>, s: int, e: int)
    requires InRange(items, snap) && SameIntervals(items, items')
    ensures InRange(items', snap) && Covered(items, snap, s, e) == Covered(items', snap, s, e)
    decreases |snap|
  {
    assert InRange(items', snap);
    if |snap| > 0 {
      assert InRange(items, snap[1..]) by {
        assert forall k :: 0 <= k < |snap| - 1 ==> snap[1..][k] == snap[k + 1];
      }
      CoveredFrame(items, items', snap[1..], s, e);
    }
  }

  /**
   Span conservation over the whole loop: the active span loses the time the
   snapshot covered within `[s, e]` and gains the candidate's span if the loop
   recorded it.
   */
  lemma {:induction false} AttachSpan<D>(items: seq<Branch<D>>, snap: seq<nat>, head: Branch<D>, next: nat)
    requires LoopInv(items, snap, head, next)
    ensures var r := Attach(items, snap, head, head.startAt, head.endAt, next);
            ActiveSpan(r.items) ==
            ActiveSpan(items) - Covered(items, snap, head.startAt, head.endAt) +
            (if Contains(r.items, head) && !Contains(items, head) then head.Span() else 0)
    decreases |snap|
  {
    var s, e := head.startAt, head.endAt;
    if |snap| > 0 {
      var p := snap[0];
      var t := Step(items, p, head, s, e, next);
      NextVisit(items, snap, head, next);
      StepSpan(items, p, head, s, e, next);
      AttachSpan(t.items, snap[1..], head, t.next);
      CoveredFrame(items, t.items, snap[1..], s, e);
      var r := Attach(t.items, snap[1..], head, s, e, t.next);
      assert r == Attach(items, snap, head, s, e, next);
      ExtendsSameIntervals(t.items, r.items);
      if Contains(t.items, head) {
        ContainsKept(t.items, r.items, head);
      }
    }
  }

  /** The loop from a well-formed history with a fresh head. */
  lemma AttachSpanFromValid<D>(items: seq<Branch<D>>, head: Branch<D>, nextId: nat)
    requires Valid(items, nextId)
    requires head.id == nextId && head.startAt < head.endAt && head.Active()
    ensures var t := Attach(items, ActivePositions(items), head, head.startAt, head.endAt, nextId + 1);
            ActiveSpan(t.items) ==
            ActiveSpan(items) - Covered(items, ActivePositions(items), head.startAt, head.endAt) +
            (if Contains(t.items, head) then head.Span() else 0)
  {
    LoopStart(items, head, nextId);
    AttachSpan(items, ActivePositions(items), head, nextId + 1);
    assert !Contains(items, head);
  }

  /**
   Span conservation for `Contract.Branch`: after a successful call the total
   span of the active branches is the old total, minus the time of `[s, e]`
   the active branches covered, plus the candidate's span when it was recorded.
   */
  lemma BranchSpan<D>(c: Contract<D>, s: int, endAt: Option<int>, data: D, nextId: nat)
    requires Valid(c.items, nextId)
    ensures var r := BranchOp(c, s, endAt, data, nextId);
            r.err.None? ==>
              var b := r.branch.value;
              ActiveSpan(r.contract.items) ==
              ActiveSpan(c.items) - Covered(c.items, ActivePositions(c.items), s, b.endAt) +
              (if Contains(r.contract.items, b) then b.Span() else 0)
  {
    BranchOutcome(c, s, endAt, data, nextId);
    if BranchOp(c, s, endAt, data, nextId).err.None? {
      var e := if Unset(endAt) then MaxEnd(c.items) else endAt.value;
      AttachSpanFromValid(c.items, NewBranch(nextId, s, e, data), nextId);
    }
  }
}
