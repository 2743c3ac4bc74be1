# Revisable timeline contracts

A model of the timeline algebra behind the contract service: a **contract** is
an append-only history of **branches**, intervals `[startAt, endAt]` carrying a
payload. A branch is **active** while its `replacedBy` list is empty.
`Contract.Branch` inserts a new interval over part of the timeline. It works
from a snapshot of the active branches and their boundaries `[minStart, maxEnd]`,
and refuses a start outside them (`OutOfBoundary`) or an empty or negative span
(`EmptySpan`). Every active branch that the request overlaps, or extends by
starting exactly at its end, is visited once. For each such branch it cuts a
left remainder `[item.startAt, startAt]` and a right remainder
`[endAt, item.endAt]` where the branch sticks out, attaches the shared
candidate, and records the new ids in the branch's `replacedBy`. Nothing is
ever removed or rewritten.

Modules:

- `Wrappers`: `Option`.
- `ConUtil`: `maxDuration`, `maxDate`, `minDate` and Go's zero time.
- `ConLib`: the datatypes and operations, `NewBranch`, `NewContract`,
  `Contains`, `Shift`, `Contract.Branch` (`BranchOp`, with the loop as `Attach`
  and one iteration as `Step`) and the active-span sum of `Explain`.
- `Splitting`: the shape of one loop iteration. It is compared with an
  independent reference definition (`Reference`: left remainder, candidate,
  right remainder, marks), covering the decisions each guard takes and span
  conservation.
- `Invariants`: the history invariant `Valid`, which holds when ids are
  unique, below the counter, and no two active branches overlap. Covers its
  preservation by `Branch`, and when the candidate is recorded.
- `Spans`: how `Branch` changes the total active span.
- `Scenarios`: the concrete timelines exercised in `conlib_test.go`, computed by
  the model.

Representation choices:

- **Instants.** Instants are whole seconds relative to the Unix epoch, and
  durations are seconds. `NewBranch`'s truncation to the second is therefore
  the identity. Go's zero `time.Time` is `ZeroTime`. An unset end is
  `Option<int>`; `Some(ZeroTime)` also counts as unset, as `time.Time.IsZero`
  decides.
- **Identifiers.** Ids are naturals drawn from a counter, which replaces
  `uuid.New()`. `NewContract` takes `nextId` for the contract and `nextId + 1`
  for its branch. `Branch` gives the candidate `nextId` and each remainder the
  next unused id, in loop order. Both return the next unused id.
- **Shared branches.** The Go loop holds `*Branch` references into the contract. The model holds
  the positions of the active branches instead. The history is append-only and
  only `replacedBy` changes, so a position keeps naming the same branch.
- **Payloads.** Payloads and contract metadata are both `ArbitraryData` in the
  code and share one opaque type parameter here. Remainders copy the
  visited branch's payload, as `conlib.go:126` and `conlib.go:133` do.

Where the tests in `conlib_test.go` and the code disagree, the model follows
the code:

- The tests expect `{"_ref": <uuid>}` payloads on remainders, at lines 67, 96,
  126-128 and 187-193. The code copies the payload and leaves a `todo` at
  line 123.
- The test at lines 150-156 expects a start 37 days before the contract to be
  accepted. The boundary check at `conlib.go:93` refuses it;
  `Scenarios.OutOfBoundaryScenario` shows the refusal.

## Model

| member | source | states |
|---|---|---|
| ConUtil.MaxDuration | conutil.go:30-35 | the result is at least both arguments and is one of them; ties give the second, so `MaxDuration(0, d)` is never negative |
| ConUtil.MaxDate | conutil.go:37-42 | the later instant, at least both arguments; the first argument only when strictly after the second, ties give the second |
| ConUtil.MinDate | conutil.go:44-49 | the earlier instant, at most both arguments; the first argument only when strictly before the second, ties give the second |
| ConLib.NewBranch | conlib.go:17-25 | a fresh branch has the given id, data and bounds, no successors (so it is active), and spans end minus start |
| ConLib.Contains | conlib.go:62-69 | the scan is true exactly when some branch of the history carries the same id as the given branch |
| ConLib.ScanFrom | conlib.go:63-68 | the scan from position `k` on is true exactly when some branch at or after `k` carries the given id |
| ConLib.NewContract | conlib.go:53-60 | exactly one branch, active, with the given bounds and data, and it is contained in the contract; the metadata is kept and the contract and its branch take two distinct ids (`nextId` and `nextId + 1`), both below the returned counter |
| ConLib.Shift | conlib.go:71-79 | the history grows by the added branch exactly when its id was absent, and contains it afterwards; with `replace` the old branch's successor list gets the new id appended at its end, otherwise it is unchanged; no other branch changes |
| ConLib.Overlap | conlib.go:110-114 | the overlap is never negative, is zero exactly when the two intervals share no interior point, and is bounded by both spans |
| ConLib.Step | conlib.go:109-136 | one iteration appends at most three branches and uses at most two ids; the visited branch changes only by a longer successor list, and no other branch changes |
| ConLib.Cut | conlib.go:125-128 | a remainder takes the next unused id; when every id is below the counter, it is appended and recorded as a successor of the visited branch |
| ConLib.Attach | conlib.go:109-136 | the loop only appends branches and grows successor lists (old history is a prefix with the same ids, intervals and payloads), never lowers the counter, and leaves branches outside the snapshot untouched |
| ConLib.ActivePositions | conlib.go:82-84 | the snapshot lists exactly the active branches, in history order, without repetition |
| ConLib.Latest | conlib.go:90 | the zero time for an empty list, otherwise a member of the list at least every member |
| ConLib.Earliest | conlib.go:91 | the zero time for an empty list, otherwise a member of the list at most every member |
| ConLib.MaxEnd | conlib.go:86-90 | the latest end of an active branch, attained by one; the zero time when none is active |
| ConLib.MinStart | conlib.go:86-91 | the earliest start of an active branch, attained by one; the zero time when none is active |
| ConLib.Unset | conlib.go:99-101 | an end counts as unset exactly when, read as a Go time with absence meaning the zero value, it is the zero time |
| ConLib.BranchOp | conlib.go:81-138 | the call succeeds exactly when the start is inside `[minStart, maxEnd]` (both inclusive) and the end (defaulting to `maxEnd` when unset) is after it; `OutOfBoundary` exactly when the start is outside, with no candidate; `EmptySpan` exactly when the start is inside but the end is not after it, with the candidate returned; history unchanged on both errors; on success the candidate has the given start, end and data, a positive span and is active; the contract keeps its id and metadata, the history is only extended, and inactive branches are untouched |
| ConLib.ActiveSpan | conlib.go:140-148 | the summed span of the active branches is zero when none is active, non-negative when no active branch has a negative span, and positive when some branch is active and every active branch has a positive span |
| Splitting.ShiftIsMarkAndAppend | conlib.go:71-79 | `Shift` is the successor mark on the old branch followed by appending the added branch when its id is absent |
| Splitting.ShiftIdempotent | conlib.go:71-79 | attaching the same branch twice without replacement is attaching it once; with replacement the history does not grow a second time |
| Splitting.Decisions | conlib.go:110-132 | the loop acts on a branch exactly when it overlaps the request or the request starts at its end; it is an extension exactly when it does not overlap and starts at the end; a left remainder is cut exactly when `item.startAt < startAt < item.endAt`, and it ends at the request's start; a right remainder exactly when `item.startAt < endAt < item.endAt` |
| Splitting.SpanConservation | conlib.go:121-134 | for an overlapped branch each remainder cut has a positive span, and left span + overlap + right span equals the branch's span |
| Splitting.StepUntouched | conlib.go:117-119 | a branch the request neither overlaps nor extends is skipped: history and counter unchanged |
| Splitting.StepShape | conlib.go:109-136 | with a fresh counter, one iteration equals the reference split: the branch marked with the left id, the candidate id (unless an extension) and the right id, then the left remainder, the candidate (if not already present) and the right remainder appended |
| Splitting.ExtensionStep | conlib.go:115-130 | in the extension case the candidate is appended (if absent) and the visited branch stays as it was, still active |
| Invariants.NewContractValid | conlib.go:53-60 | a new contract's history satisfies the invariant: unique ids, all below the counter, no two active branches overlapping |
| Invariants.ShiftKeepsUniqueIds | conlib.go:71-75 | on a history with unique ids, `Shift` keeps ids unique, grows the history by at most one, and the added id occurs exactly once afterwards |
| Invariants.StepContains | conlib.go:117-130 | after one iteration the candidate is in the history exactly when it already was or the visited branch is overlapped or extended |
| Invariants.AttachKeeps | conlib.go:109-136 | the loop invariant holds after the whole loop: ids unique and below the counter, active branches other than the candidate pairwise disjoint, every active branch outside the remaining snapshot clear of the candidate, and every branch with the candidate's id equal to it |
| Invariants.AttachHead | conlib.go:109-136 | after the loop the candidate is in the history exactly when it was before or some snapshot branch is overlapped or extended |
| Invariants.AttachRecords | conlib.go:109-136 | starting from a valid history, the candidate is recorded exactly when some active branch is overlapped or extended, and every branch with its id is the candidate |
| Invariants.BranchKeepsValid | conlib.go:81-138 | every outcome of `Branch` on a valid history is valid with the returned counter, so active branches never overlap |
| Invariants.BranchRecordsIffTouched | conlib.go:109-137 | a successful `Branch` records the candidate exactly when some active branch is overlapped or extended by it, and only once (an idempotent attach) |
| Spans.RetiredIsOverlap | conlib.go:121-134 | the span a visited branch stops contributing minus its remainders' spans is exactly the overlap |
| Spans.StepSpan | conlib.go:109-136 | one iteration lowers the active span by the overlap with the visited branch and raises it by the candidate's span the first time it is attached |
| Spans.AttachSpan | conlib.go:109-136 | the loop lowers the active span by the overlaps with the snapshot and raises it by the candidate's span if the loop attached it |
| Spans.BranchSpan | conlib.go:81-148 | after a successful `Branch` on a valid history, the active span is the old one minus the covered overlaps plus the candidate's span when it was recorded |
| Scenarios.NewContractScenario | conlib_test.go:9-25 | a one-year contract holds one branch spanning 365 days with its data and metadata, and contains it |
| Scenarios.LinearScenario | conlib_test.go:27-41 | branching from the end extends the timeline by 52 days: two branches, the first still active |
| Scenarios.LeftScenario | conlib_test.go:43-65 | a start `k` days in with an unset end gives the replaced year, a `k`-day left remainder and the candidate up to the year's end |
| Scenarios.RightScenario | conlib_test.go:71-93 | a request over the first `k` days gives the replaced year, the candidate and a right remainder for the other `365 - k` days |
| Scenarios.LeftRightScenario | conlib_test.go:99-124 | a request over days 5 to 45 gives the replaced year, a 5-day left remainder, the 40-day candidate and a 320-day right remainder, with all three ids recorded on the year |
| Scenarios.SpansNothingScenario | conlib_test.go:131-141 | an end equal to or before the start is refused with `EmptySpan`, the candidate returned, and the contract unchanged |
| Scenarios.OutOfBoundaryScenario | conlib_test.go:143-150 | a start 52 days after the end, or 37 days before the start, is refused with `OutOfBoundary` and the contract unchanged |
| Scenarios.TwoStepScenario | conlib_test.go:159-172 | two unset-end requests, one day then three days in, leave five branches with spans 364, 1, 2 and 362 days; the second splits only the first candidate |

## Left out

- HTTP routing, request validation and MongoDB persistence (`controller.go`,
  `handler.go`, `condb.go`, `main.go`) are I/O over external libraries and are
  not part of this model. This includes the two-result `NewContract` that
  `controller.go` calls.
- `uuid.New()` and `time.Now()` are foreign calls. Ids come from the `nextId`
  counter and `CreatedAt` is dropped.
- `Branch.String`, the printing in `Explain` and `duration` formatting are
  display only. The sum in `Explain` is kept as `ActiveSpan`. `newDate` is
  calendar arithmetic; the scenarios write dates in seconds.
- Sub-second instants are not modelled. Every instant is a whole second, so
  `Truncate(time.Second)` is the identity.
- `time.Time` equality at `conlib.go:115` also compares location and monotonic
  reading. Here it is integer equality.
- Go's `time.Duration` is a 64-bit count of nanoseconds. `Time.Sub`
  (`conlib.go:28`, `113`, `121-122`) saturates at the smallest and largest
  Duration for gaps beyond about 292 years, and the `span +=` sum in `Explain`
  (`conlib.go:146`) wraps around. The model's durations are unbounded, so it
  models neither the saturation nor the wrap-around.
- The `_ref` payload lineage the tests expect is not modelled, and neither is
  acceptance of a start before `minStart`. The code implements neither (see
  above).
- Invariants.BranchKeepsValid, Invariants.BranchRecordsIffTouched and
  Spans.BranchSpan assume a valid history: unique ids below the counter and no
  overlapping active branches. The Go code makes no such check. With fresh
  UUIDs, a history built by `NewContract` and `Branch` always satisfies it
  (`Invariants.NewContractValid`, `Invariants.BranchKeepsValid`).
- Splitting.StepShape and Splitting.ExtensionStep assume every id is below the
  counter, which fresh UUIDs guarantee in the code.
