/**
 The revisable timeline. A contract is an append-only sequence of branches
 (data-bearing intervals); a branch is active while nobody has replaced it.
 `Branch` inserts a new interval over part of the timeline, splitting the
 active branches it overlaps into left and right remainders and recording
 the replacements, without ever removing or rewriting an earlier interval.

 Instants are whole seconds relative to the Unix epoch, identifiers are
 naturals drawn from a counter (`nextId` is the next unused one) and the
 branch payload is an opaque type `D` that the algorithm never inspects.
 */
module ConLib {
  import opened Wrappers
  import opened ConUtil

  /** One interval of the timeline with its payload and the ids of the branches that superseded it. */
  datatype Branch<D> = Branch(id: nat, data: D, replacedBy: seq<nat>, startAt: int, endAt: int) {

    /** Duration covered; it may be zero or negative and callers must check. */
    function Span(): int {
      endAt - startAt
    }

    /** A branch is in effect as long as no successor has been recorded. */
    predicate Active() {
      |replacedBy| == 0
    }
  }

  /** The aggregate: an id, caller metadata and the append-only branch history; metadata and payloads share one opaque type. */
  datatype Contract<D> = Contract(id: nat, meta: D, items: seq<Branch<D>>)

  /** The branch history together with the next unused identifier. */
  datatype State<D> = State(items: seq<Branch<D>>, next: nat)

  /** The two ways a branch request can be refused. */
  datatype BranchError =
    | OutOfBoundary(startAt: int, minStart: int, maxEnd: int)
    | EmptySpan

  /**
   What `Contract.Branch` hands back: the contract afterwards, the candidate
   branch (absent on OutOfBoundary), the error if any, and the next unused id.
   */
  datatype Outcome<D> = Outcome(contract: Contract<D>, branch: Option<Branch<D>>, err: Option<BranchError>, next: nat)

  /** A branch over `[startAt, endAt]` with no successors; times are already whole seconds. */
  function NewBranch<D>(id: nat, startAt: int, endAt: int, data: D): (r: Branch<D>)
    ensures r.Active() && r.id == id && r.data == data
    ensures r.startAt == startAt && r.endAt == endAt && r.Span() == endAt - startAt
  {
    Branch(id, data, [], startAt, endAt)
  }

  /** A contract whose history is one branch spanning the given range; uses ids `nextId` and `nextId + 1`. */
  function NewContract<D>(startAt: int, endAt: int, data: D, meta: D, nextId: nat): (r: (Contract<D>, nat))
    ensures |r.0.items| == 1 && r.0.meta == meta && r.1 == nextId + 2
    ensures r.0.id == nextId && r.0.items[0].id == nextId + 1 && r.0.id != r.0.items[0].id && r.0.id < r.1
    ensures r.0.items[0].startAt == startAt && r.0.items[0].endAt == endAt && r.0.items[0].data == data
    ensures r.0.items[0].Active()
    ensures Contains(r.0.items, r.0.items[0])
    ensures forall i :: 0 <= i < |r.0.items| ==> r.0.items[i].id < r.1
  {
    (Contract(nextId, meta, [NewBranch(nextId + 1, startAt, endAt, data)]), nextId + 2)
  }

  /** True when some branch of the history carries the same identifier as `b`: the scan of `Contract.Contains`. */
  predicate Contains<D>(items: seq<Branch<D>>, b: Branch<D>)
    ensures Contains(items, b) <==> exists i :: 0 <= i < |items| && items[i].id == b.id
  {
    ScanFrom(items, b, 0)
  }

  /** The loop of `Contract.Contains` from position `k` on: stops at the first branch with the id of `b`. */
  predicate ScanFrom<D>(items: seq<Branch<D>>, b: Branch<D>, k: nat)
    ensures ScanFrom(items, b, k) <==> exists i :: k <= i < |items| && items[i].id == b.id
    decreases |items| - k
  {
    k < |items| && (items[k].id == b.id || ScanFrom(items, b, k + 1))
  }


  /** Appends `ids` to the successor list of the branch at position `p`. */
  function Mark<D>(items: seq<Branch<D>>, p: nat, ids: seq<nat>): (r: seq<Branch<D>>)
    requires p < |items|
    ensures |r| == |items|
    ensures r[p] == items[p].(replacedBy := items[p].replacedBy + ids)
    ensures forall i :: 0 <= i < |items| && i != p ==> r[i] == items[i]
  {
    items[p := items[p].(replacedBy := items[p].replacedBy + ids)]
  }

  /**
   The only mutation primitive: append `added` unless a branch with its id is
   already present, then, if asked, record it as a successor of the branch
   at position `oldPos`.
   */
  function Shift<D>(items: seq<Branch<D>>, oldPos: nat, added: Branch<D>, replace: bool): (r: seq<Branch<D>>)
    requires oldPos < |items|
    ensures Contains(items, added) ==> |r| == |items|
    ensures !Contains(items, added) ==> |r| == |items| + 1 && r[|items|] == added
    ensures Contains(r, added)
    ensures r[oldPos] == items[oldPos].(replacedBy := items[oldPos].replacedBy + if replace then [added.id] else [])
    ensures forall i :: 0 <= i < |items| && i != oldPos ==> r[i] == items[i]
  {
    var appended := if Contains(items, added) then items else items + [added];
    if replace then Mark(appended, oldPos, [added.id]) else appended
  }

  /** True when `[aStart, aEnd]` and `[bStart, bEnd]` have interior points in common. */
  predicate SharesInterior(aStart: int, aEnd: int, bStart: int, bEnd: int) {
    aStart < aEnd && bStart < bEnd && aStart < bEnd && bStart < aEnd
  }

  /** Length of the common part of `[itemStart, itemEnd]` and `[s, e]`, never negative. */
  function Overlap(itemStart: int, itemEnd: int, s: int, e: int): (r: int)
    ensures r >= 0
    ensures r == 0 <==> !SharesInterior(itemStart, itemEnd, s, e)
    ensures r <= MaxDuration(0, itemEnd - itemStart) && r <= MaxDuration(0, e - s)
  {
    var latestStart := MaxDate(itemStart, s);
    var earliestEnd := MinDate(itemEnd, e);
    MaxDuration(0, earliestEnd - latestStart)
  }

  /** The request starts exactly where `item` ends and shares no time with it. */
  predicate IsExtension<D>(item: Branch<D>, s: int, e: int) {
    !SharesInterior(item.startAt, item.endAt, s, e) && s == item.endAt
  }

  /** The loop body acts on `item` when they overlap or the request extends it. */
  predicate Touches<D>(item: Branch<D>, s: int, e: int) {
    SharesInterior(item.startAt, item.endAt, s, e) || s == item.endAt
  }

  /**
   One iteration of the loop over the active snapshot, for the item at
   position `p`, with `head` the candidate over `[s, e]`: attaches `head`,
   and cuts a left remainder `[item.startAt, s]` and a right remainder
   `[e, item.endAt]` where the item sticks out of the request.
   */
  function Step<D>(items: seq<Branch<D>>, p: nat, head: Branch<D>, s: int, e: int, next: nat): (r: State<D>)
    requires p < |items|
    ensures |items| <= |r.items| <= |items| + 3
    ensures next <= r.next <= next + 2
    ensures forall i :: 0 <= i < |items| && i != p ==> r.items[i] == items[i]
    ensures r.items[p] == items[p].(replacedBy := r.items[p].replacedBy)
    ensures items[p].replacedBy <= r.items[p].replacedBy
  {
    var item := items[p];
    var overlap := Overlap(item.startAt, item.endAt, s, e);
    var isExtension := overlap == 0 && s == item.endAt;
    if !(overlap != 0 || isExtension) then State(items, next)
    else
      var ldelta := MaxDuration(0, s - item.startAt);
      var rdelta := MaxDuration(0, item.endAt - e);
      var afterLeft :=
        if ldelta != 0 && ldelta != item.Span() then Cut(State(items, next), p, item.startAt, item.startAt + ldelta, item.data)
        else State(items, next);
      var afterHead := State(Shift(afterLeft.items, p, head, !isExtension), afterLeft.next);
      if rdelta != 0 then Cut(afterHead, p, e, item.endAt, item.data) else afterHead
  }

  /** Cuts a remainder `[startAt, endAt]` under the next unused id and records it as a successor of position `p`. */
  function Cut<D>(st: State<D>, p: nat, startAt: int, endAt: int, data: D): (r: State<D>)
    requires p < |st.items|
    ensures r.next == st.next + 1
    ensures (forall i :: 0 <= i < |st.items| ==> st.items[i].id < st.next) ==>
              r.items == Mark(st.items, p, [st.next]) + [NewBranch(st.next, startAt, endAt, data)]
  {
    var remainder := NewBranch(st.next, startAt, endAt, data);
    var items' := Shift(st.items, p, remainder, true);
    assert (forall i :: 0 <= i < |st.items| ==> st.items[i].id < st.next) ==>
             items' == Mark(st.items, p, [st.next]) + [remainder] by {
      if forall i :: 0 <= i < |st.items| ==> st.items[i].id < st.next {
        assert !Contains(st.items, remainder);
        var m := Mark(st.items, p, [st.next]) + [remainder];
        assert |items'| == |m|;
        forall i | 0 <= i < |m| ensures items'[i] == m[i] {
        }
      }
    }
    State(items', st.next + 1)
  }

  /** Branch `b` keeps its identity, interval and payload in `b'`; its successor list can only grow. */
  ghost predicate SameBranch<D>(b: Branch<D>, b': Branch<D>) {
    b' == b.(replacedBy := b'.replacedBy) && b.replacedBy <= b'.replacedBy
  }

  /** `items'` is `items` with branches appended and successors recorded, nothing else. */
  ghost predicate Extends<D>(items: seq<Branch<D>>, items': seq<Branch<D>>) {
    |items| <= |items'| && forall i :: 0 <= i < |items| ==> SameBranch(items[i], items'[i])
  }

  /** Every position of `snap` points into `items`. */
  predicate InRange<D>(items: seq<Branch<D>>, snap: seq<nat>) {
    forall k :: 0 <= k < |snap| ==> snap[k] < |items|
  }

  /** The loop over the snapshot: one `Step` per position, in order. */
  function Attach<D>(items: seq<Branch<D>>, snap: seq<nat>, head: Branch<D>, s: int, e: int, next: nat): (r: State<D>)
    requires InRange(items, snap)
    ensures Extends(items, r.items)
    ensures next <= r.next
    ensures forall i :: 0 <= i < |items| && i !in snap ==> r.items[i] == items[i]
    decreases |snap|
  {
    if |snap| == 0 then State(items, next)
    else
      var t := Step(items, snap[0], head, s, e, next);
      var r := Attach(t.items, snap[1..], head, s, e, t.next);
      assert forall i :: 0 <= i < |items| ==> SameBranch(items[i], t.items[i]);
      r
  }

  /** Positions of the active branches, in history order. */
  function ActivePositions<D>(items: seq<Branch<D>>): (r: seq<nat>)
    ensures forall k :: 0 <= k < |r| ==> r[k] < |items| && items[r[k]].Active()
    ensures forall i :: 0 <= i < |items| && items[i].Active() ==> i in r
    ensures forall k, l :: 0 <= k < l < |r| ==> r[k] < r[l]
  {
    if |items| == 0 then []
    else
      var front := ActivePositions(items[..|items| - 1]);
      if items[|items| - 1].Active() then front + [|items| - 1] else front
  }

  /** The latest instant of a list, or the zero time for an empty list. */
  function Latest(xs: seq<int>): (r: int)
    ensures |xs| == 0 ==> r == ZeroTime
    ensures |xs| > 0 ==> r in xs && forall k :: 0 <= k < |xs| ==> xs[k] <= r
  {
    if |xs| <= 1 then (if |xs| == 0 then ZeroTime else xs[0])
    else MaxDate(xs[|xs| - 1], Latest(xs[..|xs| - 1]))
  }

  /** The earliest instant of a list, or the zero time for an empty list. */
  function Earliest(xs: seq<int>): (r: int)
    ensures |xs| == 0 ==> r == ZeroTime
    ensures |xs| > 0 ==> r in xs && forall k :: 0 <= k < |xs| ==> r <= xs[k]
  {
    if |xs| <= 1 then (if |xs| == 0 then ZeroTime else xs[0])
    else MinDate(xs[|xs| - 1], Earliest(xs[..|xs| - 1]))
  }

  /** Latest end among the active branches; the zero time when none is active. */
  function MaxEnd<D>(items: seq<Branch<D>>): (r: int)
    ensures (forall i :: 0 <= i < |items| ==> !items[i].Active()) ==> r == ZeroTime
    ensures forall i :: 0 <= i < |items| && items[i].Active() ==> items[i].endAt <= r
    ensures (exists i :: 0 <= i < |items| && items[i].Active()) ==>
              exists i :: 0 <= i < |items| && items[i].Active() && items[i].endAt == r
  {
    var snap := ActivePositions(items);
    var ends := seq(|snap|, k requires 0 <= k < |snap| => items[snap[k]].endAt);
    var r := Latest(ends);
    assert forall i :: 0 <= i < |items| && items[i].Active() ==> items[i].endAt in ends by {
      forall i | 0 <= i < |items| && items[i].Active() ensures items[i].endAt in ends {
        var k :| 0 <= k < |snap| && snap[k] == i;
        assert ends[k] == items[i].endAt;
      }
    }
    r
  }

  /** Earliest start among the active branches; the zero time when none is active. */
  function MinStart<D>(items: seq<Branch<D>>): (r: int)
    ensures (forall i :: 0 <= i < |items| ==> !items[i].Active()) ==> r == ZeroTime
    ensures forall i :: 0 <= i < |items| && items[i].Active() ==> r <= items[i].startAt
    ensures (exists i :: 0 <= i < |items| && items[i].Active()) ==>
              exists i :: 0 <= i < |items| && items[i].Active() && items[i].startAt == r
  {
    var snap := ActivePositions(items);
    var starts := seq(|snap|, k requires 0 <= k < |snap| => items[snap[k]].startAt);
    var r := Earliest(starts);
    assert forall i :: 0 <= i < |items| && items[i].Active() ==> items[i].startAt in starts by {
      forall i | 0 <= i < |items| && items[i].Active() ensures items[i].startAt in starts {
        var k :| 0 <= k < |snap| && snap[k] == i;
        assert starts[k] == items[i].startAt;
      }
    }
    r
  }

  /** An unset end: absent, or Go's zero instant, which `time.Time.IsZero` cannot tell apart. */
  predicate Unset(endAt: Option<int>)
    ensures Unset(endAt) <==> endAt.GetOr(ZeroTime) == ZeroTime
  {
    endAt.None? || endAt.value == ZeroTime
  }

  /**
   `Contract.Branch`: insert a branch with payload `data` over `[s, endAt]`
   (an unset end meaning the latest active end). The candidate takes id
   `nextId`; remainders take the following ones.
   */
  function BranchOp<D>(c: Contract<D>, s: int, endAt: Option<int>, data: D, nextId: nat): (r: Outcome<D>)
    ensures r.err == Some(OutOfBoundary(s, MinStart(c.items), MaxEnd(c.items))) <==>
              s > MaxEnd(c.items) || s < MinStart(c.items)
    ensures r.err.Some? && r.err.value.OutOfBoundary? ==> r.branch.None? && r.contract == c && r.next == nextId
    ensures r.err == Some(EmptySpan) <==>
              MinStart(c.items) <= s <= MaxEnd(c.items) && (if Unset(endAt) then MaxEnd(c.items) else endAt.value) <= s
    ensures r.err == Some(EmptySpan) ==> r.contract == c && r.branch.Some? && r.branch.value.Span() <= 0
    ensures r.branch.Some? ==>
              var b := r.branch.value;
              b.id == nextId && b.Active() && b.startAt == s && b.data == data &&
              b.endAt == (if Unset(endAt) then MaxEnd(c.items) else endAt.value)
    ensures r.err.None? ==> r.branch.Some? && r.branch.value.Span() > 0
    ensures r.err.None? <==>
              MinStart(c.items) <= s <= MaxEnd(c.items) && s < (if Unset(endAt) then MaxEnd(c.items) else endAt.value)
    ensures r.contract.id == c.id && r.contract.meta == c.meta
    ensures Extends(c.items, r.contract.items)
    ensures forall i :: 0 <= i < |c.items| && !c.items[i].Active() ==> r.contract.items[i] == c.items[i]
  {
    var snap := ActivePositions(c.items);
    var maxEnd := MaxEnd(c.items);
    var minStart := MinStart(c.items);
    if s > maxEnd || s < minStart then
      Outcome(c, None, Some(OutOfBoundary(s, minStart, maxEnd)), nextId)
    else
      var e := if Unset(endAt) then maxEnd else endAt.value;
      var head := NewBranch(nextId, s, e, data);
      if head.Span() <= 0 then
        Outcome(c, Some(head), Some(EmptySpan), nextId + 1)
      else
        var t := Attach(c.items, snap, head, s, e, nextId + 1);
        Outcome(c.(items := t.items), Some(head), None, t.next)
  }

  /**
   Total duration of the active branches, as summed by `Explain`: zero when
   nothing is active, never negative when no active branch has a negative
   span, and positive when some branch is active and every active branch
   spans time.
   */
  function ActiveSpan<D>(items: seq<Branch<D>>): (r: int)
    ensures (forall i :: 0 <= i < |items| ==> !items[i].Active()) ==> r == 0
    ensures (forall i :: 0 <= i < |items| && items[i].Active() ==> items[i].Span() >= 0) ==> r >= 0
    ensures ((forall i :: 0 <= i < |items| && items[i].Active() ==> items[i].Span() > 0) &&
             (exists i :: 0 <= i < |items| && items[i].Active())) ==> r > 0
  {
    if |items| == 0 then 0
    else
      var front := items[..|items| - 1];
      var last := items[|items| - 1];
      assert forall i :: 0 <= i < |front| ==> front[i] == items[i];
      ActiveSpan(front) + (if last.Active() then last.Span() else 0)
  }
}
