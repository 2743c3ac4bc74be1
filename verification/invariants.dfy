/**
 Structural invariants of the branch history. A well-formed history has
 unique identifiers, all below the counter, and its active branches never
 share interior time. `NewContract` establishes this and `Contract.Branch`
 preserves it; the proof follows the loop over the snapshot of active
 branches one `Step` at a time.
 */
module Invariants {
  import opened Wrappers
  import opened ConUtil
  import opened ConLib
  import opened Splitting

  /** The two branches have no interior time in common. */
  predicate Disjoint<D>(a: Branch<D>, b: Branch<D>) {
    !SharesInterior(a.startAt, a.endAt, b.startAt, b.endAt)
  }

  /** `a` lies inside `b`. */
  predicate Within<D>(a: Branch<D>, b: Branch<D>) {
    b.startAt <= a.startAt && a.endAt <= b.endAt
  }

  predicate UniqueIds<D>(items: seq<Branch<D>>) {
    forall i, j :: 0 <= i < j < |items| ==> items[i].id != items[j].id
  }

  predicate IdsBelow<D>(items: seq<Branch<D>>, next: nat) {
    forall i :: 0 <= i < |items| ==> items[i].id < next
  }

  /** No two active branches overlap. */
  predicate NoActiveOverlap<D>(items: seq<Branch<D>>) {
    forall i, j :: 0 <= i < j < |items| && items[i].Active() && items[j].Active() ==> Disjoint(items[i], items[j])
  }

  /** A history together with a counter that is fresh for it. */
  predicate Valid<D>(items: seq<Branch<D>>, next: nat) {
    UniqueIds(items) && IdsBelow(items, next) && NoActiveOverlap(items)
  }

  // ---------------------------------------------------------------------
  // The loop invariant
  // ---------------------------------------------------------------------

  /** No overlap among active branches, except possibly for the one with id `hid`. */
  predicate Apart<D>(items: seq<Branch<D>>, hid: nat) {
    forall i, j ::
      0 <= i < j < |items| && items[i].Active() && items[j].Active() && items[i].id != hid && items[j].id != hid ==>
        Disjoint(items[i], items[j])
  }

  /** Snapshot positions still to visit: distinct, in range, active, and not the head. */
  predicate Pending<D>(items: seq<Branch<D>>, snap: seq<nat>, head: Branch<D>) {
    InRange(items, snap) &&
    (forall k, l :: 0 <= k < l < |snap| ==> snap[k] != snap[l]) &&
    (forall k :: 0 <= k < |snap| ==> items[snap[k]].Active() && items[snap[k]].id != head.id)
  }

  /** Every active branch outside the remaining snapshot is already clear of the head. */
  predicate Cleared<D>(items: seq<Branch<D>>, snap: seq<nat>, head: Branch<D>) {
    forall i :: 0 <= i < |items| && items[i].Active() && items[i].id != head.id && i !in snap ==> Disjoint(items[i], head)
  }

  /** Whatever carries the head's id is the head itself. */
  ghost predicate HeadCopies<D>(items: seq<Branch<D>>, head: Branch<D>) {
    forall i :: 0 <= i < |items| && items[i].id == head.id ==> items[i] == head
  }

  ghost predicate LoopInv<D>(items: seq<Branch<D>>, snap: seq<nat>, head: Branch<D>, next: nat) {
    head.startAt < head.endAt && head.Active() && head.id < next &&
    UniqueIds(items) && IdsBelow(items, next) &&
    Pending(items, snap, head) && Apart(items, head.id) && Cleared(items, snap, head) && HeadCopies(items, head)
  }

  /** Membership in the rest of a snapshot, for a position other than its first. */
  lemma NotInRest(snap: seq<nat>, i: nat)
    requires |snap| > 0 && i != snap[0] && i !in snap[1..]
    ensures i !in snap
  {
    assert snap == [snap[0]] + snap[1..];
  }

  /**
   What one visit of the loop does, abstractly: the old positions changed
   only at `p` and only in their successors, `p` stays active only if clear
   of the head, and each appended branch is either the head (only when it was
   absent) or a fresh, active remainder inside the item at `p`, clear of the
   head, cut from an item that is now replaced.
   */
  ghost predicate Visit<D>(items: seq<Branch<D>>, p: nat, head: Branch<D>, next: nat,
                           m: seq<Branch<D>>, tail: seq<Branch<D>>, next': nat)
  {
    p < |items| && |m| == |items| && next <= next' &&
    (forall i :: 0 <= i < |items| && i != p ==> m[i] == items[i]) &&
    m[p] == items[p].(replacedBy := m[p].replacedBy) &&
    (m[p].Active() ==> Disjoint(items[p], head)) &&
    (forall k :: 0 <= k < |tail| ==>
       tail[k] == head ||
       (next <= tail[k].id < next' && tail[k].Active() && Within(tail[k], items[p]) &&
        Disjoint(tail[k], head) && !m[p].Active())) &&
    (forall k :: 0 <= k < |tail| && tail[k] == head ==> forall i :: 0 <= i < |items| ==> items[i].id != head.id) &&
    UniqueIds(tail) && Apart(tail, head.id)
  }

  lemma VisitPending<D>(items: seq<Branch<D>>, snap: seq<nat>, head: Branch<D>, next: nat,
                        m: seq<Branch<D>>, tail: seq<Branch<D>>, next': nat)
    requires |snap| > 0 && Pending(items, snap, head) && Visit(items, snap[0], head, next, m, tail, next')
    ensures Pending(m + tail, snap[1..], head)
  {
    var r := m + tail;
    assert forall k :: 1 <= k < |snap| ==> snap[k] != snap[0];
    assert forall k :: 0 <= k < |snap| - 1 ==> snap[1..][k] == snap[k + 1];
    assert forall i :: 0 <= i < |items| ==> r[i] == m[i];
  }

  lemma VisitIds<D>(items: seq<Branch<D>>, p: nat, head: Branch<D>, next: nat,
                    m: seq<Branch<D>>, tail: seq<Branch<D>>, next': nat)
    requires head.id < next && UniqueIds(items) && IdsBelow(items, next) && HeadCopies(items, head)
    requires Visit(items, p, head, next, m, tail, next')
    requires items[p].id != head.id
    ensures UniqueIds(m + tail) && IdsBelow(m + tail, next') && HeadCopies(m + tail, head)
  {
    VisitUnique(items, p, head, next, m, tail, next');
    VisitBelow(items, p, head, next, m, tail, next');
    VisitHeadCopies(items, p, head, next, m, tail, next');
  }

  lemma VisitUnique<D>(items: seq<Branch<D>>, p: nat, head: Branch<D>, next: nat,
                       m: seq<Branch<D>>, tail: seq<Branch<D>>, next': nat)
    requires head.id < next && UniqueIds(items) && IdsBelow(items, next)
    requires Visit(items, p, head, next, m, tail, next')
    ensures UniqueIds(m + tail)
  {
    var r := m + tail;
    var n := |items|;
    assert forall i :: 0 <= i < n ==> r[i].id == items[i].id by {
      forall i | 0 <= i < n ensures r[i].id == items[i].id {
        assert r[i] == m[i];
      }
    }
    assert forall k :: 0 <= k < |tail| && tail[k] != head ==> tail[k].id != head.id;
    forall i, j | 0 <= i < j < |r| ensures r[i].id != r[j].id {
      if j >= n {
        if i >= n {
          assert r[i] == tail[i - n] && r[j] == tail[j - n];
        } else {
          assert r[j] == tail[j - n];
        }
      }
    }
  }

  lemma VisitBelow<D>(items: seq<Branch<D>>, p: nat, head: Branch<D>, next: nat,
                      m: seq<Branch<D>>, tail: seq<Branch<D>>, next': nat)
    requires head.id < next && IdsBelow(items, next)
    requires Visit(items, p, head, next, m, tail, next')
    ensures IdsBelow(m + tail, next')
  {
    var r := m + tail;
    forall i | 0 <= i < |r| ensures r[i].id < next' {
      if i >= |items| {
        assert r[i] == tail[i - |items|];
      } else {
        assert r[i] == m[i];
      }
    }
  }

  lemma VisitHeadCopies<D>(items: seq<Branch<D>>, p: nat, head: Branch<D>, next: nat,
                           m: seq<Branch<D>>, tail: seq<Branch<D>>, next': nat)
    requires head.id < next && HeadCopies(items, head)
    requires Visit(items, p, head, next, m, tail, next')
    requires items[p].id != head.id
    ensures HeadCopies(m + tail, head)
  {
    var r := m + tail;
    forall i | 0 <= i < |r| && r[i].id == head.id ensures r[i] == head {
      if i >= |items| {
        assert r[i] == tail[i - |items|];
      } else {
        assert r[i] == m[i];
      }
    }
  }

  lemma VisitApart<D>(items: seq<Branch<D>>, snap: seq<nat>, head: Branch<D>, next: nat,
                      m: seq<Branch<D>>, tail: seq<Branch<D>>, next': nat)
    requires |snap| > 0 && Pending(items, snap, head) && Apart(items, head.id) && head.id < next
    requires IdsBelow(items, next)
    requires Visit(items, snap[0], head, next, m, tail, next')
    ensures Apart(m + tail, head.id)
  {
    var p := snap[0];
    var r := m + tail;
    var n := |items|;
    forall i, j | 0 <= i < j < |r| && r[i].Active() && r[j].Active() && r[i].id != head.id && r[j].id != head.id
      ensures Disjoint(r[i], r[j])
    {
      if i >= n {
        assert r[i] == tail[i - n] && r[j] == tail[j - n];
      } else if j >= n {
        assert r[j] == tail[j - n] && r[i] == m[i];
        assert i != p;
        if i < p {
          assert Disjoint(items[i], items[p]);
        } else {
          assert Disjoint(items[p], items[i]);
        }
      } else {
        assert r[i] == m[i] && r[j] == m[j];
        assert items[i].Active() && items[j].Active();
      }
    }
  }

  lemma VisitCleared<D>(items: seq<Branch<D>>, snap: seq<nat>, head: Branch<D>, next: nat,
                        m: seq<Branch<D>>, tail: seq<Branch<D>>, next': nat)
    requires |snap| > 0 && Cleared(items, snap, head)
    requires Visit(items, snap[0], head, next, m, tail, next')
    ensures Cleared(m + tail, snap[1..], head)
  {
    var p := snap[0];
    var r := m + tail;
    var n := |items|;
    forall i | 0 <= i < |r| && r[i].Active() && r[i].id != head.id && i !in snap[1..]
      ensures Disjoint(r[i], head)
    {
      if i >= n {
        assert r[i] == tail[i - n];
      } else if i != p {
        NotInRest(snap, i);
        assert r[i] == m[i];
      } else {
        assert r[i] == m[i];
      }
    }
  }

  /** One visit re-establishes the loop invariant for the rest of the snapshot. */
  lemma Combine<D>(items: seq<Branch<D>>, snap: seq<nat>, head: Branch<D>, next: nat,
                   m: seq<Branch<D>>, tail: seq<Branch<D>>, next': nat)
    requires LoopInv(items, snap, head, next) && |snap| > 0
    requires Visit(items, snap[0], head, next, m, tail, next')
    ensures LoopInv(m + tail, snap[1..], head, next')
  {
    VisitPending(items, snap, head, next, m, tail, next');
    VisitIds(items, snap[0], head, next, m, tail, next');
    VisitApart(items, snap, head, next, m, tail, next');
    VisitCleared(items, snap, head, next, m, tail, next');
  }

  /** The pieces one visit appends: the left remainder, the head, the right remainder. */
  ghost predicate TailPieces<D>(items: seq<Branch<D>>, p: nat, head: Branch<D>, next: nat,
                                left: seq<Branch<D>>, mid: seq<Branch<D>>, right: seq<Branch<D>>)
    requires p < |items|
  {
    var item := items[p];
    var s := head.startAt;
    var e := head.endAt;
    && left == (if item.startAt < s < item.endAt then [NewBranch(next, item.startAt, s, item.data)] else [])
    && mid == (if Touches(item, s, e) && !Contains(items, head) then [head] else [])
    && right == (if item.startAt < e < item.endAt then [NewBranch(next + |left|, e, item.endAt, item.data)] else [])
  }

  /** Every appended piece is the head or a fresh, active part of the visited item clear of the head. */
  lemma TailMembers<D>(items: seq<Branch<D>>, p: nat, head: Branch<D>, next: nat,
                       left: seq<Branch<D>>, mid: seq<Branch<D>>, right: seq<Branch<D>>, mp: Branch<D>)
    requires p < |items| && head.startAt < head.endAt && head.Active() && head.id < next
    requires TailPieces(items, p, head, next, left, mid, right)
    requires SharesInterior(items[p].startAt, items[p].endAt, head.startAt, head.endAt) ==> !mp.Active()
    ensures var tail := left + mid + right;
            var next' := next + |left| + |right|;
            (forall k :: 0 <= k < |tail| ==>
               tail[k] == head ||
               (next <= tail[k].id < next' && tail[k].Active() && Within(tail[k], items[p]) &&
                Disjoint(tail[k], head) && !mp.Active())) &&
            (forall k :: 0 <= k < |tail| && tail[k] == head ==> forall i :: 0 <= i < |items| ==> items[i].id != head.id)
  {
    var tail := left + mid + right;
    assert forall k :: 0 <= k < |tail| ==> tail[k] in left || tail[k] in mid || tail[k] in right;
  }

  /** The appended pieces have distinct ids and the remainders are disjoint. */
  lemma TailUnique<D>(items: seq<Branch<D>>, p: nat, head: Branch<D>, next: nat,
                      left: seq<Branch<D>>, mid: seq<Branch<D>>, right: seq<Branch<D>>)
    requires p < |items| && head.startAt < head.endAt && head.Active() && head.id < next
    requires TailPieces(items, p, head, next, left, mid, right)
    ensures UniqueIds(left + mid + right) && Apart(left + mid + right, head.id)
  {
    var tail := left + mid + right;
    assert forall k :: 0 <= k < |tail| ==> tail[k] in left || tail[k] in mid || tail[k] in right;
    assert forall x :: x in left ==> x.id == next && x != head;
    assert forall x :: x in right ==> x.id == next + |left| && x != head;
    forall i, j | 0 <= i < j < |tail| ensures tail[i].id != tail[j].id && (tail[i] != head && tail[j] != head ==> Disjoint(tail[i], tail[j])) {
      assert tail[i] != tail[j] by {
        if |left| == 1 && i == 0 {
          assert tail[j] !in left;
        }
      }
    }
  }

  /** The reference description of one visit satisfies the abstract description `Visit`. */
  lemma ReferenceVisits<D>(items: seq<Branch<D>>, p: nat, head: Branch<D>, next: nat)
    requires p < |items| && items[p].Active() && items[p].id != head.id
    requires head.startAt < head.endAt && head.Active() && head.id < next
    ensures var t := Reference(items, p, head, head.startAt, head.endAt, next);
            |items| <= |t.items| &&
            Visit(items, p, head, next, t.items[..|items|], t.items[|items|..], t.next)
  {
    var s, e := head.startAt, head.endAt;
    var t := Reference(items, p, head, s, e, next);
    var item := items[p];
    var hasLeft := item.startAt < s < item.endAt;
    var hasRight := item.startAt < e < item.endAt;
    var shares := SharesInterior(item.startAt, item.endAt, s, e);
    var left := if hasLeft then [NewBranch(next, item.startAt, s, item.data)] else [];
    var mid := if Touches(item, s, e) && !Contains(items, head) then [head] else [];
    var right := if hasRight then [NewBranch(next + |left|, e, item.endAt, item.data)] else [];
    var lm: seq<nat> := if hasLeft then [next] else [];
    var hm: seq<nat> := if shares then [head.id] else [];
    var rm: seq<nat> := if hasRight then [next + |left|] else [];
    var marks := lm + hm + rm;
    var m := Mark(items, p, marks);
    var tail := left + mid + right;
    ReferencePieces(items, p, head, s, e, next, marks, left, mid, right);
    ConcatAssoc(m, left, mid);
    ConcatAssoc(m, left + mid, right);
    assert t.items[..|items|] == m && t.items[|items|..] == tail;
    assert |marks| == 0 <==> !shares;
    TailMembers(items, p, head, next, left, mid, right, m[p]);
    TailUnique(items, p, head, next, left, mid, right);
  }

  /** One visit of the loop satisfies the abstract description `Visit`. */
  lemma StepVisits<D>(items: seq<Branch<D>>, p: nat, head: Branch<D>, next: nat)
    requires p < |items| && items[p].Active() && items[p].id != head.id
    requires head.startAt < head.endAt && head.Active() && head.id < next && IdsBelow(items, next)
    ensures var t := Step(items, p, head, head.startAt, head.endAt, next);
            |items| <= |t.items| &&
            Visit(items, p, head, next, t.items[..|items|], t.items[|items|..], t.next)
  {
    StepShape(items, p, head, head.startAt, head.endAt, next);
    ReferenceVisits(items, p, head, next);
  }

  lemma SplitAt<X>(s: seq<X>, n: nat)
    requires n <= |s|
    ensures s == s[..n] + s[n..]
  {
  }

  /** One visit of the loop keeps the loop invariant for the rest of the snapshot. */
  lemma StepKeeps<D>(items: seq<Branch<D>>, snap: seq<nat>, head: Branch<D>, next: nat)
    requires LoopInv(items, snap, head, next) && |snap| > 0
    ensures var t := Step(items, snap[0], head, head.startAt, head.endAt, next);
            LoopInv(t.items, snap[1..], head, t.next)
  {
    var t := Step(items, snap[0], head, head.startAt, head.endAt, next);
    StepVisits(items, snap[0], head, next);
    SplitAt(t.items, |items|);
    Combine(items, snap, head, next, t.items[..|items|], t.items[|items|..], t.next);
  }

  /** The whole loop keeps the invariant; at its end every active branch is clear of the head. */
  lemma {:induction false} AttachKeeps<D>(items: seq<Branch<D>>, snap: seq<nat>, head: Branch<D>, next: nat)
    requires LoopInv(items, snap, head, next)
    ensures var r := Attach(items, snap, head, head.startAt, head.endAt, next);
            LoopInv(r.items, [], head, r.next)
    decreases |snap|
  {
    if |snap| > 0 {
      var t := Step(items, snap[0], head, head.startAt, head.endAt, next);
      StepKeeps(items, snap, head, next);
      AttachKeeps(t.items, snap[1..], head, t.next);
    }
  }

  /** Before the loop: the snapshot is every active branch and the head's id is fresh. */
  lemma LoopStart<D>(items: seq<Branch<D>>, head: Branch<D>, nextId: nat)
    requires Valid(items, nextId)
    requires head.id == nextId && head.startAt < head.endAt && head.Active()
    ensures LoopInv(items, ActivePositions(items), head, nextId + 1)
  {
    var snap := ActivePositions(items);
    assert forall i :: 0 <= i < |items| && items[i].Active() ==> i in snap;
  }

  /** After the loop: no overlap at all, since the head is clear of every other active branch. */
  lemma LoopEnd<D>(items: seq<Branch<D>>, head: Branch<D>, next: nat)
    requires LoopInv(items, [], head, next)
    ensures Valid(items, next)
  {
    forall i, j | 0 <= i < j < |items| && items[i].Active() && items[j].Active()
      ensures Disjoint(items[i], items[j])
    {
      if items[i].id == head.id {
        assert items[i] == head;
        assert Disjoint(items[j], head);
      } else if items[j].id == head.id {
        assert items[j] == head;
        assert Disjoint(items[i], head);
      }
    }
  }

  /** `NewContract` starts a well-formed history. */
  lemma NewContractValid<D>(startAt: int, endAt: int, data: D, meta: D, nextId: nat)
    ensures var r := NewContract(startAt, endAt, data, meta, nextId);
            Valid(r.0.items, r.1)
  {
  }

  /**
   `Contract.Branch` keeps the history well formed, whatever the outcome: in
   particular no two active branches ever overlap, and the counter stays fresh.
   */
  lemma BranchKeepsValid<D>(c: Contract<D>, s: int, endAt: Option<int>, data: D, nextId: nat)
    requires Valid(c.items, nextId)
    ensures var r := BranchOp(c, s, endAt, data, nextId);
            Valid(r.contract.items, r.next)
  {
    BranchOutcome(c, s, endAt, data, nextId);
    var e := if Unset(endAt) then MaxEnd(c.items) else endAt.value;
    var head := NewBranch(nextId, s, e, data);
    if BranchOp(c, s, endAt, data, nextId).err.None? {
      AttachValid(c.items, head, nextId);
    } else {
      assert IdsBelow(c.items, nextId + 1);
    }
  }

  /** The loop from a well-formed history with a fresh head leaves a well-formed history. */
  lemma AttachValid<D>(items: seq<Branch<D>>, head: Branch<D>, nextId: nat)
    requires Valid(items, nextId)
    requires head.id == nextId && head.startAt < head.endAt && head.Active()
    ensures var t := Attach(items, ActivePositions(items), head, head.startAt, head.endAt, nextId + 1);
            Valid(t.items, t.next)
  {
    var snap := ActivePositions(items);
    LoopStart(items, head, nextId);
    AttachKeeps(items, snap, head, nextId + 1);
    var t := Attach(items, snap, head, head.startAt, head.endAt, nextId + 1);
    LoopEnd(t.items, head, t.next);
  }

  /** Branches at old positions keep their intervals; only successor lists may grow. */
  predicate SameIntervals<D>(items: seq<Branch<D>>, items': seq<Branch<D>>) {
    |items| <= |items'| &&
    forall i :: 0 <= i < |items| ==>
      items'[i].id == items[i].id && items'[i].startAt == items[i].startAt && items'[i].endAt == items[i].endAt
  }

  lemma ExtendsSameIntervals<D>(items: seq<Branch<D>>, items': seq<Branch<D>>)
    requires Extends(items, items')
    ensures SameIntervals(items, items')
  {
    forall i | 0 <= i < |items| ensures items'[i].id == items[i].id && items'[i].startAt == items[i].startAt {
      assert SameBranch(items[i], items'[i]);
    }
  }

  /** Keeping ids keeps membership. */
  lemma ContainsKept<D>(items: seq<Branch<D>>, items': seq<Branch<D>>, b: Branch<D>)
    requires SameIntervals(items, items') && Contains(items, b)
    ensures Contains(items', b)
  {
    var i :| 0 <= i < |items| && items[i].id == b.id;
    assert items'[i].id == b.id;
  }

  /** A visit keeps every branch's id and interval, and only appends. */
  lemma StepSameIntervals<D>(items: seq<Branch<D>>, p: nat, head: Branch<D>, s: int, e: int, next: nat)
    requires p < |items|
    ensures SameIntervals(items, Step(items, p, head, s, e, next).items)
  {
    var t := Step(items, p, head, s, e, next);
    assert forall i :: 0 <= i < |items| && i != p ==> t.items[i] == items[i];
  }

  /** A visit holds the head exactly when it already did or the item is touched. */
  lemma StepContains<D>(items: seq<Branch<D>>, p: nat, head: Branch<D>, next: nat)
    requires p < |items| && head.startAt < head.endAt && head.id < next && IdsBelow(items, next)
    ensures Contains(Step(items, p, head, head.startAt, head.endAt, next).items, head) <==>
            Contains(items, head) || Touches(items[p], head.startAt, head.endAt)
  {
    var s, e := head.startAt, head.endAt;
    StepShape(items, p, head, s, e, next);
    StepSameIntervals(items, p, head, s, e, next);
    var t := Reference(items, p, head, s, e, next);
    var item := items[p];
    if Contains(items, head) {
      ContainsKept(items, t.items, head);
    } else if Touches(item, s, e) {
      ReferenceHoldsHead(items, p, head, next);
    } else {
      StepUntouched(items, p, head, s, e, next);
      assert forall i :: 0 <= i < |items| ==> t.items[i].id == items[i].id;
    }
  }

  /** A touched item whose history lacks the head gets it appended. */
  lemma ReferenceHoldsHead<D>(items: seq<Branch<D>>, p: nat, head: Branch<D>, next: nat)
    requires p < |items| && Touches(items[p], head.startAt, head.endAt) && !Contains(items, head)
    ensures Contains(Reference(items, p, head, head.startAt, head.endAt, next).items, head)
  {
    var item := items[p];
    var t := Reference(items, p, head, head.startAt, head.endAt, next);
    var k := |items| + if item.startAt < head.startAt < item.endAt then 1 else 0;
    assert t.items[k] == head;
    ContainsAt(t.items, k, head);
  }


  /** `[s, e]` overlaps or extends the branch at some snapshot position. */
  predicate SomeTouched<D>(items: seq<Branch<D>>, snap: seq<nat>, s: int, e: int)
    requires InRange(items, snap)
  {
    exists k :: 0 <= k < |snap| && Touches(items[snap[k]], s, e)
  }

  lemma SomeTouchedFrame<D>(items: seq<Branch<D>>, items': seq<Branch<D>>, snap: seq<nat>, s: int, e: int)
    requires InRange(items, snap) && SameIntervals(items, items')
    ensures InRange(items', snap) && (SomeTouched(items, snap, s, e) <==> SomeTouched(items', snap, s, e))
  {
    assert forall k :: 0 <= k < |snap| ==> items[snap[k]].startAt == items'[snap[k]].startAt;
  }

  /** One visit under the loop invariant: the invariant carries over, intervals stay, and the head is held iff touched. */
  lemma NextVisit<D>(items: seq<Branch<D>>, snap: seq<nat>, head: Branch<D>, next: nat)
    requires LoopInv(items, snap, head, next) && |snap| > 0
    ensures var t := Step(items, snap[0], head, head.startAt, head.endAt, next);
            && LoopInv(t.items, snap[1..], head, t.next)
            && SameIntervals(items, t.items)
            && (Contains(t.items, head) <==> Contains(items, head) || Touches(items[snap[0]], head.startAt, head.endAt))
  {
    StepSameIntervals(items, snap[0], head, head.startAt, head.endAt, next);
    StepContains(items, snap[0], head, next);
    StepKeeps(items, snap, head, next);
  }

  lemma SomeTouchedSplit<D>(items: seq<Branch<D>>, snap: seq<nat>, s: int, e: int)
    requires InRange(items, snap) && |snap| > 0
    ensures InRange(items, snap[1..])
    ensures SomeTouched(items, snap, s, e) <==> Touches(items[snap[0]], s, e) || SomeTouched(items, snap[1..], s, e)
  {
    if SomeTouched(items, snap, s, e) && !Touches(items[snap[0]], s, e) {
      var k :| 0 <= k < |snap| && Touches(items[snap[k]], s, e);
      assert snap[1..][k - 1] == snap[k];
    }
    if SomeTouched(items, snap[1..], s, e) {
      var k :| 0 <= k < |snap[1..]| && Touches(items[snap[1..][k]], s, e);
      assert snap[k + 1] == snap[1..][k];
    }
  }

  /**
   After the loop the candidate is in the history exactly when it was already
   there or it overlaps or extends some branch of the snapshot.
   */
  lemma {:induction false} AttachHead<D>(items: seq<Branch<D>>, snap: seq<nat>, head: Branch<D>, next: nat)
    requires LoopInv(items, snap, head, next)
    ensures Contains(Attach(items, snap, head, head.startAt, head.endAt, next).items, head) <==>
            Contains(items, head) || SomeTouched(items, snap, head.startAt, head.endAt)
    decreases |snap|
  {
    var s, e := head.startAt, head.endAt;
    if |snap| > 0 {
      var t := Step(items, snap[0], head, s, e, next);
      NextVisit(items, snap, head, next);
      AttachHead(t.items, snap[1..], head, t.next);
      SomeTouchedSplit(items, snap, s, e);
      SomeTouchedFrame(items, t.items, snap[1..], s, e);
      var r := Attach(t.items, snap[1..], head, s, e, t.next);
      assert r == Attach(items, snap, head, s, e, next);
      ExtendsSameIntervals(t.items, r.items);
      if Contains(t.items, head) {
        ContainsKept(t.items, r.items, head);
      }
    }
  }

  /** The loop from a well-formed history: the fresh head ends up recorded iff it touches an active branch. */
  lemma AttachRecords<D>(items: seq<Branch<D>>, head: Branch<D>, nextId: nat)
    requires Valid(items, nextId)
    requires head.id == nextId && head.startAt < head.endAt && head.Active()
    ensures var t := Attach(items, ActivePositions(items), head, head.startAt, head.endAt, nextId + 1);
            && (Contains(t.items, head) <==>
                exists i :: 0 <= i < |items| && items[i].Active() && Touches(items[i], head.startAt, head.endAt))
            && HeadCopies(t.items, head)
  {
    var s, e := head.startAt, head.endAt;
    var snap := ActivePositions(items);
    LoopStart(items, head, nextId);
    AttachHead(items, snap, head, nextId + 1);
    AttachKeeps(items, snap, head, nextId + 1);
    assert !Contains(items, head);
    if exists i :: 0 <= i < |items| && items[i].Active() && Touches(items[i], s, e) {
      var i :| 0 <= i < |items| && items[i].Active() && Touches(items[i], s, e);
      var k :| 0 <= k < |snap| && snap[k] == i;
      assert SomeTouched(items, snap, s, e);
    }
  }

  /** The three outcomes of `Contract.Branch`, each spelled out. */
  lemma BranchOutcome<D>(c: Contract<D>, s: int, endAt: Option<int>, data: D, nextId: nat)
    ensures var r := BranchOp(c, s, endAt, data, nextId);
            var e := if Unset(endAt) then MaxEnd(c.items) else endAt.value;
            var head := NewBranch(nextId, s, e, data);
            && (r.err.None? ==>
                  var t := Attach(c.items, ActivePositions(c.items), head, s, e, nextId + 1);
                  s < e && r == Outcome(c.(items := t.items), Some(head), None, t.next))
            && (r.err.Some? ==> r.contract == c && (r.next == nextId || r.next == nextId + 1))
  {
  }

  /**
   A successful `Contract.Branch` records the candidate exactly when it
   overlaps or extends some active branch, and a recorded candidate stays
   active and unchanged; otherwise it is returned without being recorded.
   */
  lemma BranchRecordsIffTouched<D>(c: Contract<D>, s: int, endAt: Option<int>, data: D, nextId: nat)
    requires Valid(c.items, nextId)
    ensures var r := BranchOp(c, s, endAt, data, nextId);
            r.err.None? ==>
              var b := r.branch.value;
              && (Contains(r.contract.items, b) <==>
                  exists i :: 0 <= i < |c.items| && c.items[i].Active() && Touches(c.items[i], s, b.endAt))
              && UniqueIds(r.contract.items)
              && forall i :: 0 <= i < |r.contract.items| && r.contract.items[i].id == b.id ==> r.contract.items[i] == b
  {
    BranchOutcome(c, s, endAt, data, nextId);
    BranchKeepsValid(c, s, endAt, data, nextId);
    if BranchOp(c, s, endAt, data, nextId).err.None? {
      var e := if Unset(endAt) then MaxEnd(c.items) else endAt.value;
      AttachRecords(c.items, NewBranch(nextId, s, e, data), nextId);
    }
  }

  /**
   `Shift` never duplicates a branch: on a history with unique ids the result
   still has unique ids, so the added id occurs exactly once, and the history
   grows by at most one element.
   */
  lemma ShiftKeepsUniqueIds<D>(items: seq<Branch<D>>, oldPos: nat, added: Branch<D>, replace: bool)
    requires oldPos < |items| && UniqueIds(items)
    ensures var r := Shift(items, oldPos, added, replace);
            && UniqueIds(r) && |items| <= |r| <= |items| + 1
            && exists i :: 0 <= i < |r| && r[i].id == added.id && forall j :: 0 <= j < |r| && j != i ==> r[j].id != added.id
  {
    var r := Shift(items, oldPos, added, replace);
    ShiftUnique(items, oldPos, added, replace);
    var i :| 0 <= i < |r| && r[i].id == added.id;
  }

  lemma ShiftUnique<D>(items: seq<Branch<D>>, oldPos: nat, added: Branch<D>, replace: bool)
    requires oldPos < |items| && UniqueIds(items)
    ensures UniqueIds(Shift(items, oldPos, added, replace))
  {
    var r := Shift(items, oldPos, added, replace);
    assert forall i :: 0 <= i < |items| ==> r[i].id == items[i].id;
    forall a, b | 0 <= a < b < |r| ensures r[a].id != r[b].id {
      if b >= |items| {
        assert !Contains(items, added) && r[b] == added;
      }
    }
  }
}
