/**
 The life of a task under automatic remediation: how the repair chokepoint and the loops around it
 rewrite the state and the counters of a row, and why a task cannot be requeued forever.

 Whatever the program reads off free text (notes, logs, prompts) is an answer in `Signals`.  The
 answers may differ at every visit, so the results hold for every classifier.
 */
module Remediation {
  import opened Text

  datatype State =
    | QUEUED | RUNNING | RETRY | MERGING | BLOCKED | CONFLICT | TESTFAIL | DONE
    | SHELVED | DECOMPOSED | QUARANTINED | MERGED

  /** REMEDIATION_CAP, REMEDIATION_HARD_CAP, the three ceilings of the repair module, the raw-attempt
      backstop (0 disables it) and the shelf-recovery cap. */
  datatype Config = Config(cap: nat, hardCap: nat, repairCeiling: nat, attemptCeiling: nat,
                           blindCeiling: nat, attemptHardCap: nat, shelfCap: nat)

  const DEFAULTS := Config(3, 6, 8, 20, 4, 25, 3)

  /** `mark` is the highest `shelf-recovery #n` the note carries, 0 if none. */
  datatype Row = Row(state: State, attempt: nat, rc: nat, mark: nat)

  datatype Signals = Signals(
    closure: bool,          // the note answers why there is nothing to build
    held: bool,             // a person has to decide
    loadSuspect: bool,      // the last gate verdict was taken on a saturated machine
    maxTurns: bool, tooLong: bool, parked: bool, conflict: bool, capacity: bool, missingTool: bool,
    noop: bool, uncommitted: bool, transient: bool,
    operator: bool,         // the slug marks a question for a person
    quota: bool,            // the provider refused for lack of credit
    evidence: bool,         // there is something a repair can act on
    unspecified: bool,      // the prompt asks for nothing
    splits: bool,           // the task can be, and was, split into sub-tasks
    revised: bool,          // the planner rewrote the prompt
    autoClosed: bool,       // a no-op was closed as done
    reroutes: bool,         // the row is not yet on another provider
    quotedMark: nat)        // the mark a note shows that quotes older text

  /** A database update; None leaves a column alone. */
  datatype Patch = Patch(state: State, attempt: Option<nat>, rc: Option<nat>, mark: nat)

  function Apply(r: Row, p: Patch): Row {
    Row(p.state,
        if p.attempt.Some? then p.attempt.value else r.attempt,
        if p.rc.Some? then p.rc.value else r.rc,
        p.mark)
  }

  // ----- the repair chokepoint -----

  /** The counter columns a sweep selected; a column left out is unknown, not zero. */
  datatype Selected = Selected(rc: Option<nat>, attempt: Option<nat>)

  function All(r: Row): Selected {
    Selected(Some(r.rc), Some(r.attempt))
  }

  /** Re-reads the stored row, if it can be read, for a column that was not selected. */
  function TrueCounters(sel: Selected, stored: Option<Row>): (nat, nat) {
    (if sel.rc.Some? then sel.rc.value else if stored.Some? then stored.value.rc else 0,
     if sel.attempt.Some? then sel.attempt.value else if stored.Some? then stored.value.attempt else 0)
  }

  function RepairPatch(cfg: Config, sel: Selected, stored: Option<Row>, sig: Signals): Patch {
    if sig.operator then Patch(QUEUED, None, None, 0)
    else if sig.quota then Patch(QUEUED, None, None, sig.quotedMark)
    else
      var (rc, attempts) := TrueCounters(sel, stored);
      var parked := Patch(QUARANTINED, None, Some(rc), 0);
      if attempts >= cfg.attemptCeiling || rc >= cfg.repairCeiling then parked
      else if !sig.evidence && sel.attempt == Some(0) then Patch(QUEUED, None, None, 0)
      else if sig.unspecified || (!sig.evidence && rc >= cfg.blindCeiling) then parked
      else Patch(QUEUED, Some(attempts + 1), Some(rc + 1), 0)
  }

  function Repair(cfg: Config, r: Row, sig: Signals): Patch {
    RepairPatch(cfg, All(r), Some(r), sig)
  }

  /** No sweep can slip past a ceiling by selecting too few columns: when the stored row can be read
      and the selected columns are its own, a requeue that hands out a repair counts as an attempt
      beyond the stored ones and stays under both ceilings; nothing it writes lowers a counter. */
  lemma NarrowSelectionMeetsCeilings(cfg: Config, sel: Selected, r: Row, sig: Signals)
    requires sel.rc.Some? ==> sel.rc.value == r.rc
    requires sel.attempt.Some? ==> sel.attempt.value == r.attempt
    ensures var p := RepairPatch(cfg, sel, Some(r), sig);
      var after := Apply(r, p);
      && (p.attempt.Some? <==> p.state == QUEUED && after.attempt == r.attempt + 1)
      && (p.attempt.Some? ==> r.attempt < cfg.attemptCeiling && r.rc < cfg.repairCeiling && after.rc == r.rc + 1)
      && (p.attempt.None? ==> after.attempt == r.attempt && after.rc == r.rc)
      && (p.state != QUEUED ==> p.state == QUARANTINED)
  {
  }

  /** When the stored row cannot be read either, a column that was not selected counts as 0, and the repair that is
      handed out writes that back: exactly then a counter is lowered. */
  lemma UnreadableRowLosesCountsIff(cfg: Config, sel: Selected, r: Row, sig: Signals)
    requires sel.rc.Some? ==> sel.rc.value == r.rc
    requires sel.attempt.Some? ==> sel.attempt.value == r.attempt
    ensures var p := RepairPatch(cfg, sel, None, sig);
      var after := Apply(r, p);
      && (after.attempt < r.attempt <==> p.attempt.Some? && sel.attempt.None? && r.attempt > 1)
      && (after.rc < r.rc <==> p.rc.Some? && sel.rc.None? && r.rc > (if p.attempt.Some? then 1 else 0))
      && (p.attempt.Some? <==>
            && !sig.operator && !sig.quota
            && (sel.attempt.Some? ==> r.attempt > 0 || sig.evidence)
            && (if sel.attempt.Some? then r.attempt else 0) < cfg.attemptCeiling
            && (if sel.rc.Some? then r.rc else 0) < cfg.repairCeiling
            && !sig.unspecified && (sig.evidence || (if sel.rc.Some? then r.rc else 0) < cfg.blindCeiling))
  {
  }

  // ----- one visit of each loop -----

  /** Where the summary of a remediation pass counts a row. */
  datatype Bucket = Left | Shelved | Decomposed | Requeued | Escalated | Revised | Reclaimed

  /** What a visit did: the row afterwards, and whether it was written back as QUEUED. */
  datatype Visit = Visit(row: Row, requeued: bool)

  function Write(r: Row, p: Patch): Visit {
    Visit(Apply(r, p), p.state == QUEUED)
  }

  function Leave(r: Row): Visit {
    Visit(r, false)
  }

  predicate IsBlocked(s: State) {
    s == BLOCKED || s == CONFLICT || s == TESTFAIL
  }

  predicate OverAttemptCap(cfg: Config, r: Row) {
    cfg.attemptHardCap > 0 && r.attempt >= cfg.attemptHardCap
  }

  /** Requeued without a repair, so only `remediation_count` moves. */
  predicate PlainRetry(r: Row, sig: Signals) {
    (r.state == TESTFAIL && sig.loadSuspect) || sig.maxTurns
  }

  /** One row of a remediation pass, branch by branch. */
  function RunRow(cfg: Config, r: Row, sig: Signals): (Visit, Bucket) {
    var repair := Repair(cfg, r, sig);
    var shelve := Patch(SHELVED, None, None, sig.quotedMark);
    var again := Patch(QUEUED, None, Some(r.rc + 1), 0);
    if sig.closure then (Leave(r), Left)
    else if OverAttemptCap(cfg, r) && r.rc < cfg.hardCap && !sig.held then (Write(r, shelve), Shelved)
    else if r.rc >= cfg.hardCap && !sig.held then
      if sig.splits then (Write(r, Patch(DECOMPOSED, None, None, 0)), Decomposed)
      else (Write(r, shelve), Shelved)
    else if r.state == TESTFAIL && sig.loadSuspect then (Write(r, again), Requeued)
    else if sig.maxTurns then (Write(r, again), if r.rc < cfg.cap then Requeued else Reclaimed)
    else if sig.tooLong || sig.parked then (Write(r, repair), Reclaimed)
    else if sig.conflict then (Write(r, repair), Requeued)
    else if sig.capacity then (Write(r, repair.(rc := Some(0))), Requeued)
    else if sig.missingTool then (Write(r, repair), Requeued)
    else if sig.held then (Leave(r), Left)
    else if (sig.noop && r.rc >= 1) || sig.uncommitted || r.rc >= cfg.cap then (Write(r, repair), Reclaimed)
    else if r.rc == 0 then (Write(r, repair), if sig.transient then Requeued else Escalated)
    else (Write(r, repair), if sig.revised then Revised else Reclaimed)
  }

  /** Taking a row off the shelf. */
  function ShelfRow(cfg: Config, r: Row, sig: Signals): Visit {
    if sig.held || r.mark >= cfg.shelfCap then Leave(r)
    else if sig.splits then Write(r, Patch(DECOMPOSED, None, None, 0))
    else Write(r, Repair(cfg, r, sig).(rc := Some(0), mark := r.mark + 1))
  }

  /** Recovering a row from a stale review card. */
  function CardRow(cfg: Config, r: Row, sig: Signals): Visit {
    if r.state in {QUEUED, RUNNING, RETRY, MERGING, MERGED} || (r.state == DONE && !sig.autoClosed) then Leave(r)
    else Write(r, Repair(cfg, r, sig).(rc := Some(0)))
  }

  /** Reopening a no-op that was closed as done. */
  function NoopRow(cfg: Config, r: Row, sig: Signals): Visit {
    if !sig.autoClosed || sig.held then Leave(r)
    else if r.rc >= cfg.hardCap then Write(r, Patch(SHELVED, None, None, sig.quotedMark))
    else Write(r, Repair(cfg, r, sig))
  }

  /** Rerouting a row whose provider is out of budget or capacity. */
  function OffloadRow(cfg: Config, r: Row, sig: Signals): Visit {
    if sig.capacity && sig.reroutes then Write(r, Repair(cfg, r, sig)) else Leave(r)
  }

  // ----- what becomes of a row -----

  /** The failure is of a kind that is answered before anything asks whether a person has to decide. */
  predicate Recognised(r: Row, sig: Signals) {
    || (r.state == TESTFAIL && sig.loadSuspect)
    || sig.maxTurns || sig.tooLong || sig.parked || sig.conflict || sig.capacity || sig.missingTool
  }

  /** The note answers the task, or a person holds it and nothing else was recognised. */
  predicate LeftAlone(r: Row, sig: Signals) {
    sig.closure || (sig.held && !Recognised(r, sig))
  }

  /** Nobody holds it and its remediations or its raw attempts are used up. */
  predicate GivenUp(cfg: Config, r: Row, sig: Signals) {
    !sig.closure && !sig.held && (r.rc >= cfg.hardCap || 0 < cfg.attemptHardCap <= r.attempt)
  }

  /** Only remediations make a task too big. */
  predicate Split(cfg: Config, r: Row, sig: Signals) {
    GivenUp(cfg, r, sig) && r.rc >= cfg.hardCap && sig.splits
  }

  /** It is tried again, as it is or repaired. */
  predicate TriedAgain(cfg: Config, r: Row, sig: Signals) {
    !LeftAlone(r, sig) && !GivenUp(cfg, r, sig)
  }

  /** A repair parks the task for good: not a question for a person nor a lack of credit, and at a ceiling, or it
      has run or left evidence and asks for nothing or was repaired blindly too often. */
  predicate RepairParks(cfg: Config, r: Row, sig: Signals) {
    && !sig.operator && !sig.quota
    && (|| r.attempt >= cfg.attemptCeiling || r.rc >= cfg.repairCeiling
        || ((sig.evidence || r.attempt > 0) && (sig.unspecified || (!sig.evidence && r.rc >= cfg.blindCeiling))))
  }

  /** A repair is handed out, and counts. */
  predicate RepairCounts(cfg: Config, r: Row, sig: Signals) {
    !sig.operator && !sig.quota && (sig.evidence || r.attempt > 0) && !RepairParks(cfg, r, sig)
  }

  /** The capacity of a provider is the first thing recognised. */
  predicate ForCapacity(r: Row, sig: Signals) {
    sig.capacity && !PlainRetry(r, sig) && !sig.tooLong && !sig.parked && !sig.conflict
  }

  /** What a pass makes of a row: exactly one state, and each counter. */
  ghost predicate Treated(cfg: Config, r: Row, sig: Signals, after: Row) {
    EndsIn(cfg, r, sig, after) && Counts(cfg, r, sig, after)
  }

  ghost predicate EndsIn(cfg: Config, r: Row, sig: Signals, after: Row) {
    var again := TriedAgain(cfg, r, sig);
    && (after == r <==> LeftAlone(r, sig))
    && (after.state == DECOMPOSED <==> Split(cfg, r, sig))
    && (after.state == SHELVED <==> GivenUp(cfg, r, sig) && !Split(cfg, r, sig))
    && (after.state == QUARANTINED <==> again && !PlainRetry(r, sig) && RepairParks(cfg, r, sig))
    && (after.state == QUEUED <==> again && (PlainRetry(r, sig) || !RepairParks(cfg, r, sig)))
  }

  ghost predicate Counts(cfg: Config, r: Row, sig: Signals, after: Row) {
    var again, repaired := TriedAgain(cfg, r, sig), TriedAgain(cfg, r, sig) && !PlainRetry(r, sig);
    && after.attempt == r.attempt + (if repaired && RepairCounts(cfg, r, sig) then 1 else 0)
    && after.rc == (if repaired && ForCapacity(r, sig) then 0
                    else if again && (PlainRetry(r, sig) || RepairCounts(cfg, r, sig)) then r.rc + 1
                    else r.rc)
    && after.mark == (if LeftAlone(r, sig) then r.mark
                      else if after.state == SHELVED || (repaired && !sig.operator && sig.quota) then sig.quotedMark
                      else 0)
  }

  /** The bucket a visit is counted in. */
  predicate Falls(cfg: Config, r: Row, sig: Signals, b: Bucket) {
    var again, other := TriedAgain(cfg, r, sig), TriedAgain(cfg, r, sig) && !Recognised(r, sig);
    var first := other && r.rc == 0 < cfg.cap && !sig.uncommitted;
    var later := other && 0 < r.rc < cfg.cap && !sig.uncommitted && !sig.noop;
    match b
    case Left => LeftAlone(r, sig)
    case Shelved => GivenUp(cfg, r, sig) && !Split(cfg, r, sig)
    case Decomposed => Split(cfg, r, sig)
    case Escalated => first && !sig.transient
    case Revised => later && sig.revised
    case Requeued =>
      || (first && sig.transient)
      || (again && if r.state == TESTFAIL && sig.loadSuspect then true
                   else if sig.maxTurns then r.rc < cfg.cap
                   else !sig.tooLong && !sig.parked && (sig.conflict || sig.capacity || sig.missingTool))
    case Reclaimed =>
      && again && !first && !(later && sig.revised)
      && !(r.state == TESTFAIL && sig.loadSuspect)
      && if sig.maxTurns then r.rc >= cfg.cap
         else sig.tooLong || sig.parked || (!sig.conflict && !sig.capacity && !sig.missingTool)
  }

  /** A repair parks, counts, or does neither. */
  lemma RepairIs(cfg: Config, r: Row, sig: Signals)
    ensures var after := Apply(r, Repair(cfg, r, sig));
      && after.state == (if RepairParks(cfg, r, sig) then QUARANTINED else QUEUED)
      && after.attempt == r.attempt + (if RepairCounts(cfg, r, sig) then 1 else 0)
      && after.rc == r.rc + (if RepairCounts(cfg, r, sig) then 1 else 0)
      && after.mark == (if !sig.operator && sig.quota then sig.quotedMark else 0)
  {
  }

  lemma RunRowIs(cfg: Config, r: Row, sig: Signals)
    requires IsBlocked(r.state)
    ensures var (visit, bucket) := RunRow(cfg, r, sig);
      && Treated(cfg, r, sig, visit.row) && (visit.requeued <==> visit.row.state == QUEUED)
      && forall b :: Falls(cfg, r, sig, b) <==> b == bucket
  {
    hide RunRow, Treated, Falls;
    RowIsTreated(cfg, r, sig);
    RowFalls(cfg, r, sig);
  }

  lemma RowIsTreated(cfg: Config, r: Row, sig: Signals)
    requires IsBlocked(r.state)
    ensures var visit := RunRow(cfg, r, sig).0;
      Treated(cfg, r, sig, visit.row) && (visit.requeued <==> visit.row.state == QUEUED)
  {
    hide Repair, RepairParks, RepairCounts, Recognised;
    RepairIs(cfg, r, sig);
    if TriedAgain(cfg, r, sig) && !PlainRetry(r, sig) {
      RowIsRepaired(cfg, r, sig);
      hide RunRow;
    } else {
      RowIsNotRepaired(cfg, r, sig);
      hide RunRow;
    }
  }

  /** A row that is tried again and not plainly is repaired, its remediations forgotten if it is for capacity. */
  lemma RowIsRepaired(cfg: Config, r: Row, sig: Signals)
    requires TriedAgain(cfg, r, sig) && !PlainRetry(r, sig)
    ensures var (visit, fixed) := (RunRow(cfg, r, sig).0, Apply(r, Repair(cfg, r, sig)));
      && visit.row == (if ForCapacity(r, sig) then fixed.(rc := 0) else fixed)
      && (visit.requeued <==> visit.row.state == QUEUED)
  {
    hide Repair;
  }

  lemma RowIsNotRepaired(cfg: Config, r: Row, sig: Signals)
    requires !TriedAgain(cfg, r, sig) || PlainRetry(r, sig)
    ensures var visit := RunRow(cfg, r, sig).0;
      && visit == (if LeftAlone(r, sig) then Leave(r)
                   else if Split(cfg, r, sig) then Visit(Row(DECOMPOSED, r.attempt, r.rc, 0), false)
                   else if GivenUp(cfg, r, sig) then Visit(Row(SHELVED, r.attempt, r.rc, sig.quotedMark), false)
                   else Visit(Row(QUEUED, r.attempt, r.rc + 1, 0), true))
  {
    hide Repair;
  }

  lemma RowFalls(cfg: Config, r: Row, sig: Signals)
    ensures forall b :: Falls(cfg, r, sig, b) <==> b == RunRow(cfg, r, sig).1
  {
    hide Repair;
  }

  /** From the shelf a row is split or repaired with its remediations forgotten, unless a person holds it or the mark
      is at its cap. */
  lemma ShelfRowIs(cfg: Config, r: Row, sig: Signals)
    requires r.state == SHELVED
    ensures var (v, stays) := (ShelfRow(cfg, r, sig), sig.held || r.mark >= cfg.shelfCap);
      && (v == Leave(r) <==> stays) && (v.requeued <==> v.row.state == QUEUED)
      && (v.row.state == DECOMPOSED <==> !stays && sig.splits)
      && (v.row.state == QUARANTINED <==> !stays && !sig.splits && RepairParks(cfg, r, sig))
      && (v.row.state == QUEUED <==> !stays && !sig.splits && !RepairParks(cfg, r, sig))
      && v.row.attempt == r.attempt + (if v.requeued && RepairCounts(cfg, r, sig) then 1 else 0)
      && v.row.rc == (if stays || sig.splits then r.rc else 0)
      && v.row.mark == (if stays then r.mark else if sig.splits then 0 else r.mark + 1)
  {
    hide Repair;
    RepairIs(cfg, r, sig);
  }

  /** A stale review card repairs any row that is neither on its way nor finished, and forgets its remediations. */
  lemma CardRowIs(cfg: Config, r: Row, sig: Signals)
    ensures var (v, taken) := (CardRow(cfg, r, sig),
        r.state in {BLOCKED, CONFLICT, TESTFAIL, SHELVED, DECOMPOSED, QUARANTINED} || (r.state == DONE && sig.autoClosed));
      && (!taken ==> v == Leave(r)) && (v.requeued <==> taken && v.row.state == QUEUED)
      && (taken ==> && v.row.state == (if RepairParks(cfg, r, sig) then QUARANTINED else QUEUED) && v.row.rc == 0
                    && v.row.attempt == r.attempt + (if RepairCounts(cfg, r, sig) then 1 else 0))
  {
    hide Repair;
    RepairIs(cfg, r, sig);
  }

  /** A task closed for want of changes is repaired, or shelved when its remediations are used up. */
  lemma NoopRowIs(cfg: Config, r: Row, sig: Signals)
    requires r.state == DONE
    ensures var (v, taken) := (NoopRow(cfg, r, sig), sig.autoClosed && !sig.held);
      && (v == Leave(r) <==> !taken) && (v.requeued <==> v.row.state == QUEUED)
      && (v.row.state == SHELVED <==> taken && r.rc >= cfg.hardCap)
      && (v.row.state == QUARANTINED <==> taken && r.rc < cfg.hardCap && RepairParks(cfg, r, sig))
      && (v.row.state == QUEUED <==> taken && r.rc < cfg.hardCap && !RepairParks(cfg, r, sig))
      && (v.row.rc - r.rc == v.row.attempt - r.attempt == if v.requeued && RepairCounts(cfg, r, sig) then 1 else 0)
  {
    hide Repair;
    RepairIs(cfg, r, sig);
  }

  /** A row stopped for budget or capacity is repaired on another provider, and the repair counts as any other. */
  lemma OffloadRowIs(cfg: Config, r: Row, sig: Signals)
    ensures var (v, taken) := (OffloadRow(cfg, r, sig), sig.capacity && sig.reroutes);
      && (!taken ==> v == Leave(r)) && (v.requeued <==> taken && v.row.state == QUEUED)
      && (taken ==> v.row.state == (if RepairParks(cfg, r, sig) then QUARANTINED else QUEUED))
      && (v.row.rc - r.rc == v.row.attempt - r.attempt == if taken && RepairCounts(cfg, r, sig) then 1 else 0)
  {
    hide Repair;
    RepairIs(cfg, r, sig);
  }

  // ----- runs -----

  /** One event in the life of a row.  `World` is everything else: the fleet runs the task, gates it,
      retries it or parks it, and other code may count attempts.  `Reset` is the exception: recovery from an
      infrastructure failure and a repeated order put a row back into the queue with no attempt counted. */
  datatype Event =
    | Run(sig: Signals) | Shelf(sig: Signals) | Card(sig: Signals) | Noop(sig: Signals) | Offload(sig: Signals)
    | World(after: Row) | Reset(mark: nat)

  /** Parked rows come back through the loops above and by a reset only. */
  predicate Parked(s: State) {
    s == SHELVED || s == DECOMPOSED || s == QUARANTINED || s == MERGED
  }

  /** The loops select by state; the world never lowers a counter and never revives a parked row. */
  predicate CanHappen(r: Row, e: Event) {
    match e
    case Run(_) => IsBlocked(r.state)
    case Shelf(_) => r.state == SHELVED
    case Card(_) => true
    case Noop(_) => r.state == DONE
    case Offload(_) => r.state in {QUEUED, RETRY, BLOCKED}
    case World(after) =>
      after.attempt >= r.attempt && after.rc >= r.rc && (Parked(r.state) ==> Parked(after.state))
    case Reset(_) => IsBlocked(r.state) || r.state in {SHELVED, DECOMPOSED, QUARANTINED}
  }

  function Happen(cfg: Config, r: Row, e: Event): Visit {
    match e
    case Run(sig) => RunRow(cfg, r, sig).0
    case Shelf(sig) => ShelfRow(cfg, r, sig)
    case Card(sig) => CardRow(cfg, r, sig)
    case Noop(sig) => NoopRow(cfg, r, sig)
    case Offload(sig) => OffloadRow(cfg, r, sig)
    case World(after) => Leave(after)
    case Reset(mark) => Leave(Row(QUEUED, 0, r.rc, mark))
  }

  predicate IsRun(cfg: Config, r: Row, es: seq<Event>)
    decreases |es|
  {
    es == [] || (CanHappen(r, es[0]) && IsRun(cfg, Happen(cfg, r, es[0]).row, es[1..]))
  }

  function Final(cfg: Config, r: Row, es: seq<Event>): Row
    decreases |es|
  {
    if es == [] then r else Final(cfg, Happen(cfg, r, es[0]).row, es[1..])
  }

  function Requeues(cfg: Config, r: Row, es: seq<Event>): nat
    decreases |es|
  {
    if es == [] then 0
    else
      var v := Happen(cfg, r, es[0]);
      (if v.requeued then 1 else 0) + Requeues(cfg, v.row, es[1..])
  }

  function ShelfRecoveries(cfg: Config, r: Row, es: seq<Event>): nat
    decreases |es|
  {
    if es == [] then 0
    else
      var v := Happen(cfg, r, es[0]);
      (if es[0].Shelf? && v.requeued then 1 else 0) + ShelfRecoveries(cfg, v.row, es[1..])
  }

  lemma RunCons(cfg: Config, r: Row, e: Event, es: seq<Event>)
    ensures var (v, all) := (Happen(cfg, r, e), [e] + es);
      && (IsRun(cfg, r, all) <==> CanHappen(r, e) && IsRun(cfg, v.row, es))
      && Final(cfg, r, all) == Final(cfg, v.row, es)
      && Requeues(cfg, r, all) == (if v.requeued then 1 else 0) + Requeues(cfg, v.row, es)
      && ShelfRecoveries(cfg, r, all) == (if e.Shelf? && v.requeued then 1 else 0) + ShelfRecoveries(cfg, v.row, es)
  {
    hide Happen, CanHappen;
    assert ([e] + es)[1..] == es;
  }

  lemma RunNil(cfg: Config, r: Row)
    ensures IsRun(cfg, r, []) && Final(cfg, r, []) == r
    ensures Requeues(cfg, r, []) == 0 && ShelfRecoveries(cfg, r, []) == 0
  {
  }

  // ----- why it ends -----

  function Remaining(limit: nat, used: nat): nat {
    if used < limit then limit - used else 0
  }

  /** The pair that every requeue lowers: attempts left, then remediations left. */
  predicate Lowers(cfg: Config, r: Row, after: Row) {
    var (a, b) := (Remaining(cfg.attemptCeiling, r.attempt), Remaining(cfg.attemptCeiling, after.attempt));
    b < a || (b == a && Remaining(cfg.hardCap, after.rc) < Remaining(cfg.hardCap, r.rc))
  }

  /** The repair would be handed out without counting: an operator slug, a provider out of credit, or a first
      attempt with nothing to act on. */
  predicate Uncounted(r: Row, sig: Signals) {
    sig.operator || sig.quota || (!sig.evidence && r.attempt == 0)
  }

  /** What a loop could check before the visit: its repair does not count, or the row is held and past the hard
      cap but only retried. */
  predicate Stalls(cfg: Config, r: Row, e: Event) {
    match e
    case Run(sig) => if PlainRetry(r, sig) then sig.held && r.rc >= cfg.hardCap else Uncounted(r, sig)
    case Shelf(sig) => Uncounted(r, sig)
    case Card(sig) => Uncounted(r, sig)
    case Noop(sig) => Uncounted(r, sig)
    case Offload(sig) => Uncounted(r, sig)
    case World(_) => false
    case Reset(_) => false
  }

  /** A requeue by any loop lowers the pair, although shelf, capacity and card recovery reset
      `remediation_count`, exactly when it does not stall. */
  lemma RequeueLowersIff(cfg: Config, r: Row, e: Event)
    requires CanHappen(r, e) && Happen(cfg, r, e).requeued
    ensures Lowers(cfg, r, Happen(cfg, r, e).row) <==> !Stalls(cfg, r, e)
  {
  }

  /** The number of requeues a row has left.  Remediations count for a row that is not parked only:
      parking resets `remediation_count` in some branches, which would raise the plain pair. */
  function Potential(cfg: Config, r: Row): nat {
    Remaining(cfg.attemptCeiling, r.attempt) * (cfg.hardCap + 1)
    + if Parked(r.state) then 0 else Remaining(cfg.hardCap, r.rc)
  }

  lemma PotentialOfAttempts(cfg: Config, a: nat, b: nat)
    ensures a > b ==> a * (cfg.hardCap + 1) >= b * (cfg.hardCap + 1) + (cfg.hardCap + 1)
  {
    if a > b { Multiples(a, b, cfg.hardCap + 1); }
  }

  lemma Multiples(a: nat, b: nat, h: nat)
    requires a > b
    ensures a * h >= b * h + h
  {
    assert a * h == (a - 1) * h + h;
    if a - 1 > b { Multiples(a - 1, b, h); }
  }

  /** Every step but a reset pays one unit for a requeue that does not stall, and never gains. */
  lemma StepSpendsPotential(cfg: Config, r: Row, e: Event)
    requires CanHappen(r, e) && !e.Reset? && (Happen(cfg, r, e).requeued ==> !Stalls(cfg, r, e))
    ensures var v := Happen(cfg, r, e);
      && v.row.attempt >= r.attempt
      && Potential(cfg, v.row) + (if v.requeued then 1 else 0) <= Potential(cfg, r)
  {
    var v := Happen(cfg, r, e);
    PotentialOfAttempts(cfg, Remaining(cfg.attemptCeiling, r.attempt), Remaining(cfg.attemptCeiling, v.row.attempt));
    if v.requeued { RequeueLowersIff(cfg, r, e); }
  }

  lemma PotentialIsBounded(cfg: Config, r: Row)
    ensures Potential(cfg, r) <= (cfg.attemptCeiling + 1) * (cfg.hardCap + 1)
  {
    PotentialOfAttempts(cfg, cfg.attemptCeiling + 1, Remaining(cfg.attemptCeiling, r.attempt));
  }

  /** No requeue of the run stalls. */
  predicate NeverStalls(cfg: Config, r: Row, es: seq<Event>)
    decreases |es|
  {
    es == []
    || ((Happen(cfg, r, es[0]).requeued ==> !Stalls(cfg, r, es[0])) && NeverStalls(cfg, Happen(cfg, r, es[0]).row, es[1..]))
  }

  function Resets(es: seq<Event>): nat
    decreases |es|
  {
    if es == [] then 0 else (if es[0].Reset? then 1 else 0) + Resets(es[1..])
  }

  /** Over every run, of any length and in any order of the loops, in which no requeue stalls, a task is requeued
      no more often than its potential, which its attempts bound, and once more that budget for each reset. */
  lemma {:induction false} RemediationTerminates(cfg: Config, r: Row, es: seq<Event>)
    requires IsRun(cfg, r, es) && NeverStalls(cfg, r, es)
    ensures var budget := (cfg.attemptCeiling + 1) * (cfg.hardCap + 1);
      && Potential(cfg, r) <= budget
      && Requeues(cfg, r, es) + Potential(cfg, Final(cfg, r, es)) <= Potential(cfg, r) + Resets(es) * budget
    decreases |es|
  {
    hide CanHappen, Happen, Potential, Stalls;
    var budget := (cfg.attemptCeiling + 1) * (cfg.hardCap + 1);
    PotentialIsBounded(cfg, r);
    if es != [] {
      var v := Happen(cfg, r, es[0]);
      RemediationTerminates(cfg, v.row, es[1..]);
      if es[0].Reset? {
        ResetIsNoRequeue(cfg, r, es[0]);
      } else {
        StepSpendsPotential(cfg, r, es[0]);
      }
      NextTimes(Resets(es[1..]), budget);
    }
  }

  lemma ResetIsNoRequeue(cfg: Config, r: Row, e: Event)
    requires e.Reset?
    ensures !Happen(cfg, r, e).requeued
  {
  }

  lemma NextTimes(k: nat, budget: nat)
    ensures (k + 1) * budget == k * budget + budget
  {
  }

  /** The events a person or a provider does not interfere with. */
  predicate Ordinary(e: Event) {
    e.World? || (!e.Reset? && !e.sig.held && !e.sig.operator && !e.sig.quota)
  }

  predicate AllOrdinary(es: seq<Event>) {
    forall i :: 0 <= i < |es| ==> Ordinary(es[i])
  }

  /** No requeue of an ordinary task that has run at least once stalls. */
  lemma {:induction false} OrdinaryNeverStalls(cfg: Config, r: Row, es: seq<Event>)
    requires IsRun(cfg, r, es) && r.attempt >= 1 && AllOrdinary(es)
    ensures NeverStalls(cfg, r, es) && Resets(es) == 0
    decreases |es|
  {
    if es != [] {
      assert Ordinary(es[0]);
      StepSpendsPotential(cfg, r, es[0]);
      OrdinaryNeverStalls(cfg, Happen(cfg, r, es[0]).row, es[1..]);
    }
  }

  lemma OrdinaryTasksTerminate(cfg: Config, r: Row, es: seq<Event>)
    requires IsRun(cfg, r, es) && r.attempt >= 1 && AllOrdinary(es)
    ensures Requeues(cfg, r, es) <= (cfg.attemptCeiling + 1) * (cfg.hardCap + 1)
  {
    hide Potential, IsRun, NeverStalls, Requeues, Resets;
    OrdinaryNeverStalls(cfg, r, es);
    RemediationTerminates(cfg, r, es);
  }

  /** The plain pair alone is no measure: parking a row can raise it. */
  lemma ParkingRaisesThePair()
    ensures var (r, e) := (Row(SHELVED, 1, 8, 0), Shelf(NoSignals()));
      && CanHappen(r, e) && Ordinary(e)
      && Happen(DEFAULTS, r, e) == Visit(Row(QUARANTINED, 1, 0, 1), false)
      && Lowers(DEFAULTS, Row(QUARANTINED, 1, 0, 1), r)
  {
  }

  /** A visit about which nothing was recognised, with evidence to act on. */
  function NoSignals(): Signals {
    Signals(false, false, false, false, false, false, false, false, false, false, false, false,
            false, false, true, false, false, false, false, false, 0)
  }

  // ----- exactly when it does not end -----

  /** The same answers again and again, the world putting the task back where it was in between. */
  function Loop(cfg: Config, r: Row, e: Event, n: nat): seq<Event>
    decreases n
  {
    if n == 0 then []
    else
      var back := Happen(cfg, r, e).row.(state := r.state, mark := r.mark);
      [e, World(back)] + Loop(cfg, back, e, n - 1)
  }

  lemma StallCountsNothing(cfg: Config, r: Row, e: Event)
    requires CanHappen(r, e) && Happen(cfg, r, e).requeued && Stalls(cfg, r, e)
    ensures var after := Happen(cfg, r, e).row; !Parked(after.state) && after.attempt == r.attempt
  {
  }

  lemma StallAgain(cfg: Config, r: Row, e: Event)
    requires CanHappen(r, e) && Happen(cfg, r, e).requeued && Stalls(cfg, r, e)
    ensures var back := Happen(cfg, r, e).row.(state := r.state, mark := r.mark);
      CanHappen(back, e) && Happen(cfg, back, e).requeued && Stalls(cfg, back, e)
  {
  }

  lemma StallComesBack(cfg: Config, r: Row, e: Event)
    requires CanHappen(r, e) && Happen(cfg, r, e).requeued && Stalls(cfg, r, e)
    ensures var after := Happen(cfg, r, e).row;
      var back := after.(state := r.state, mark := r.mark);
      && CanHappen(after, World(back)) && Happen(cfg, after, World(back)) == Visit(back, false)
      && back.attempt == r.attempt && CanHappen(back, e) && Happen(cfg, back, e).requeued && Stalls(cfg, back, e)
  {
    StallCountsNothing(cfg, r, e);
    StallAgain(cfg, r, e);
    hide RunRow, ShelfRow, CardRow, NoopRow, OffloadRow, Stalls;
  }

  /** A requeue that stalls, by whichever loop, can be repeated without end, and no attempt is ever counted. */
  lemma {:induction false} StallRepeatsForever(cfg: Config, r: Row, e: Event, n: nat)
    requires CanHappen(r, e) && Happen(cfg, r, e).requeued && Stalls(cfg, r, e)
    ensures var es := Loop(cfg, r, e, n);
      && IsRun(cfg, r, es) && Requeues(cfg, r, es) == n && Final(cfg, r, es).attempt == r.attempt
    decreases n
  {
    hide IsRun, Final, Requeues, Happen, Stalls, CanHappen;
    RunNil(cfg, r);
    if n > 0 {
      var after := Happen(cfg, r, e).row;
      var back := after.(state := r.state, mark := r.mark);
      StallComesBack(cfg, r, e);
      assert Loop(cfg, r, e, n) == [e] + ([World(back)] + Loop(cfg, back, e, n - 1));
      StallRepeatsForever(cfg, back, e, n - 1);
      RunCons(cfg, after, World(back), Loop(cfg, back, e, n - 1));
      RunCons(cfg, r, e, [World(back)] + Loop(cfg, back, e, n - 1));
    }
  }

  /** However often the passes come by, a row whose note answers the task, or that a person holds while nothing else
      is recognised, stays exactly as it is. */
  lemma {:induction false} LeftAloneStays(cfg: Config, r: Row, es: seq<Event>)
    requires IsBlocked(r.state) && forall i :: 0 <= i < |es| ==> es[i].Run? && LeftAlone(r, es[i].sig)
    ensures IsRun(cfg, r, es) && Final(cfg, r, es) == r && Requeues(cfg, r, es) == 0
    decreases |es|
  {
    hide RunRow, IsBlocked;
    if es != [] {
      RunRowIs(cfg, r, es[0].sig);
      LeftAloneStays(cfg, r, es[1..]);
    }
  }

  // ----- the shelf -----

  /** What bounds the trips to the shelf is the attempt count. */
  lemma {:induction false} ShelfRecoveriesBounded(cfg: Config, r: Row, es: seq<Event>)
    requires IsRun(cfg, r, es) && NeverStalls(cfg, r, es) && Resets(es) == 0
    ensures ShelfRecoveries(cfg, r, es) <= Remaining(cfg.attemptCeiling, r.attempt)
    decreases |es|
  {
    if es != [] {
      StepSpendsPotential(cfg, r, es[0]);
      ShelfRecoveriesBounded(cfg, Happen(cfg, r, es[0]).row, es[1..]);
    }
  }

  lemma {:induction false} RunAppend(cfg: Config, r: Row, a: seq<Event>, b: seq<Event>)
    requires IsRun(cfg, r, a) && IsRun(cfg, Final(cfg, r, a), b)
    ensures IsRun(cfg, r, a + b) && Final(cfg, r, a + b) == Final(cfg, Final(cfg, r, a), b)
    ensures ShelfRecoveries(cfg, r, a + b) == ShelfRecoveries(cfg, r, a) + ShelfRecoveries(cfg, Final(cfg, r, a), b)
    decreases |a|
  {
    hide *;
    if a == [] {
      assert a + b == b;
      RunNil(cfg, r);
    } else {
      var next := Happen(cfg, r, a[0]).row;
      assert a == [a[0]] + a[1..] && a + b == [a[0]] + (a[1..] + b);
      RunCons(cfg, r, a[0], a[1..]);
      RunCons(cfg, r, a[0], a[1..] + b);
      RunAppend(cfg, next, a[1..], b);
    }
  }

  /** Failing on a saturated machine, `n` times. */
  function Climb(r: Row, n: nat): seq<Event>
    decreases n
  {
    if n == 0 then []
    else
      [Run(NoSignals().(loadSuspect := true)), World(Row(TESTFAIL, r.attempt, r.rc + 1, 0))]
      + Climb(Row(TESTFAIL, r.attempt, r.rc + 1, 0), n - 1)
  }

  lemma {:induction false} ClimbReaches(cfg: Config, r: Row, n: nat)
    requires r.state == TESTFAIL && !OverAttemptCap(cfg, r) && r.rc + n <= cfg.hardCap
    ensures var es := Climb(r, n);
      && IsRun(cfg, r, es) && AllOrdinary(es)
      && Final(cfg, r, es) == (if n == 0 then r else Row(TESTFAIL, r.attempt, r.rc + n, 0))
      && ShelfRecoveries(cfg, r, es) == 0
    decreases n
  {
    hide IsRun, Final, ShelfRecoveries, Happen, CanHappen, Ordinary, NoSignals;
    RunNil(cfg, r);
    if n > 0 {
      var e := Run(NoSignals().(loadSuspect := true));
      var up, next := Row(QUEUED, r.attempt, r.rc + 1, 0), Row(TESTFAIL, r.attempt, r.rc + 1, 0);
      var rest := Climb(next, n - 1);
      ClimbStep(cfg, r);
      assert Climb(r, n) == [e] + ([World(next)] + rest);
      ClimbReaches(cfg, next, n - 1);
      hide Climb;
      RunCons(cfg, up, World(next), rest);
      RunCons(cfg, r, e, [World(next)] + rest);
    }
  }

  lemma ClimbStep(cfg: Config, r: Row)
    requires r.state == TESTFAIL && !OverAttemptCap(cfg, r) && r.rc < cfg.hardCap
    ensures var e := Run(NoSignals().(loadSuspect := true));
      var (up, next) := (Row(QUEUED, r.attempt, r.rc + 1, 0), Row(TESTFAIL, r.attempt, r.rc + 1, 0));
      && Happen(cfg, r, e) == Visit(up, true) && CanHappen(r, e) && Ordinary(e)
      && Happen(cfg, up, World(next)) == Visit(next, false) && CanHappen(up, World(next)) && Ordinary(World(next))
  {
  }

  /** How often a row just off the shelf is retried before it is shelved again. */
  function Retries(cfg: Config, attempt: nat): nat {
    if cfg.attemptHardCap > 0 && attempt >= cfg.attemptHardCap then 0 else cfg.hardCap
  }

  /** Off the shelf, up to the hard cap, and back on the shelf. */
  function ShelfCycle(cfg: Config, r: Row): seq<Event> {
    var out := Row(TESTFAIL, r.attempt + 1, 0, r.mark + 1);
    [Shelf(NoSignals()), World(out)] + (Climb(out, Retries(cfg, r.attempt + 1)) + [Run(NoSignals())])
  }

  lemma OffAndOnShelf(cfg: Config, r: Row)
    requires r.state == SHELVED && r.attempt < cfg.attemptCeiling && r.rc < cfg.repairCeiling && r.mark < cfg.shelfCap
    ensures var (out, n) := (Row(TESTFAIL, r.attempt + 1, 0, r.mark + 1), Retries(cfg, r.attempt + 1));
      var top := if n == 0 then out else Row(TESTFAIL, r.attempt + 1, n, 0);
      var (up, off, on) := (out.(state := QUEUED), Shelf(NoSignals()), Run(NoSignals()));
      && Happen(cfg, r, off) == Visit(up, true) && CanHappen(r, off)
      && Happen(cfg, up, World(out)) == Visit(out, false) && CanHappen(up, World(out))
      && Happen(cfg, top, on) == Visit(Row(SHELVED, r.attempt + 1, n, 0), false) && CanHappen(top, on)
      && Ordinary(off) && Ordinary(on) && Ordinary(World(out)) && (n > 0 ==> !OverAttemptCap(cfg, out))
  {
  }

  lemma ShelfCycleReturns(cfg: Config, r: Row)
    requires r.state == SHELVED && r.attempt < cfg.attemptCeiling && r.rc < cfg.repairCeiling && r.mark < cfg.shelfCap
    ensures var es := ShelfCycle(cfg, r);
      && IsRun(cfg, r, es) && AllOrdinary(es)
      && Final(cfg, r, es) == Row(SHELVED, r.attempt + 1, Retries(cfg, r.attempt + 1), 0)
      && ShelfRecoveries(cfg, r, es) == 1
  {
    var out, n := Row(TESTFAIL, r.attempt + 1, 0, r.mark + 1), Retries(cfg, r.attempt + 1);
    var up, shelved := out.(state := QUEUED), Row(SHELVED, r.attempt + 1, n, 0);
    var top := if n == 0 then out else Row(TESTFAIL, r.attempt + 1, n, 0);
    var off, on, climb := Shelf(NoSignals()), Run(NoSignals()), Climb(out, n);
    assert ShelfCycle(cfg, r) == [off] + ([World(out)] + (climb + [on]));
    hide IsRun, Final, ShelfRecoveries, ShelfCycle, Climb, Happen, CanHappen, NoSignals, Ordinary;
    OffAndOnShelf(cfg, r);
    assert [on] + [] == [on];
    ClimbOrStay(cfg, out, n);
    RunNil(cfg, shelved);
    RunCons(cfg, top, on, []);
    RunAppend(cfg, out, climb, [on]);
    RunCons(cfg, up, World(out), climb + [on]);
    RunCons(cfg, r, off, [World(out)] + (climb + [on]));
  }

  lemma ClimbOrStay(cfg: Config, r: Row, n: nat)
    requires r.state == TESTFAIL && r.rc + n <= cfg.hardCap && (n > 0 ==> !OverAttemptCap(cfg, r))
    ensures var es := Climb(r, n);
      && IsRun(cfg, r, es) && AllOrdinary(es)
      && Final(cfg, r, es) == (if n == 0 then r else Row(TESTFAIL, r.attempt, r.rc + n, 0))
      && ShelfRecoveries(cfg, r, es) == 0
  {
    if n > 0 { ClimbReaches(cfg, r, n); }
  }

  function ShelfCycles(cfg: Config, r: Row, k: nat): seq<Event>
    decreases k
  {
    if k == 0 then []
    else ShelfCycle(cfg, r) + ShelfCycles(cfg, Row(SHELVED, r.attempt + 1, Retries(cfg, r.attempt + 1), 0), k - 1)
  }

  /** The marker in the note does not bound them: the next note overwrites it, so by the doing of the loops alone
      a task comes off the shelf until its attempts are used up, whatever the cap, if that is not 0 and the hard
      cap is below the repair ceiling. */
  lemma {:induction false} ShelfMarkIsForgotten(cfg: Config, r: Row, k: nat)
    requires r.state == SHELVED && r.rc < cfg.repairCeiling && r.mark < cfg.shelfCap
    requires r.attempt + k <= cfg.attemptCeiling && cfg.hardCap < cfg.repairCeiling
    ensures var es := ShelfCycles(cfg, r, k);
      IsRun(cfg, r, es) && AllOrdinary(es) && ShelfRecoveries(cfg, r, es) == k
    decreases k
  {
    hide IsRun, Final, ShelfRecoveries, ShelfCycle, Ordinary;
    RunNil(cfg, r);
    if k > 0 {
      var next := Row(SHELVED, r.attempt + 1, Retries(cfg, r.attempt + 1), 0);
      ShelfCycleReturns(cfg, r);
      ShelfMarkIsForgotten(cfg, next, k - 1);
      RunAppend(cfg, r, ShelfCycle(cfg, r), ShelfCycles(cfg, next, k - 1));
    }
  }

  /** Off the shelf, and shelved again by other code, which writes a note of its own. */
  function ShelvedAgain(r: Row, k: nat): seq<Event>
    decreases k
  {
    if k == 0 then []
    else
      var next := Row(SHELVED, r.attempt + 1, 0, 0);
      [Shelf(NoSignals()), World(next)] + ShelvedAgain(next, k - 1)
  }

  lemma {:induction false} ShelvedAgainCounts(cfg: Config, r: Row, k: nat)
    requires r.state == SHELVED && r.rc < cfg.repairCeiling && r.mark < cfg.shelfCap && r.attempt + k <= cfg.attemptCeiling
    ensures var es := ShelvedAgain(r, k);
      IsRun(cfg, r, es) && AllOrdinary(es) && ShelfRecoveries(cfg, r, es) == k
    decreases k
  {
    hide IsRun, Final, ShelfRecoveries, Happen, CanHappen, Ordinary, NoSignals;
    RunNil(cfg, r);
    if k > 0 {
      var up, next := Row(QUEUED, r.attempt + 1, 0, r.mark + 1), Row(SHELVED, r.attempt + 1, 0, 0);
      var rest := ShelvedAgain(next, k - 1);
      OffShelf(cfg, r);
      ShelvedAgainCounts(cfg, next, k - 1);
      assert ShelvedAgain(r, k) == [Shelf(NoSignals())] + ([World(next)] + rest);
      hide ShelvedAgain;
      RunCons(cfg, up, World(next), rest);
      RunCons(cfg, r, Shelf(NoSignals()), [World(next)] + rest);
    }
  }

  lemma OffShelf(cfg: Config, r: Row)
    requires r.state == SHELVED && r.attempt < cfg.attemptCeiling && r.rc < cfg.repairCeiling && r.mark < cfg.shelfCap
    ensures var (up, next) := (Row(QUEUED, r.attempt + 1, 0, r.mark + 1), Row(SHELVED, r.attempt + 1, 0, 0));
      var off := Shelf(NoSignals());
      && Happen(cfg, r, off) == Visit(up, true) && CanHappen(r, off) && Ordinary(off)
      && Happen(cfg, up, World(next)) == Visit(next, false) && CanHappen(up, World(next)) && Ordinary(World(next))
  {
  }

  /** With any settings, trips from the shelf are at most `c` on every run of an ordinary task exactly when at
      most `c` attempts are left, for every shelved row that neither the marker nor a ceiling keeps there. */
  lemma ShelfTripsIff(cfg: Config, r: Row, c: nat)
    requires r.state == SHELVED && r.attempt >= 1 && r.rc < cfg.repairCeiling && r.mark < cfg.shelfCap
    ensures (forall es :: IsRun(cfg, r, es) && AllOrdinary(es) ==> ShelfRecoveries(cfg, r, es) <= c) <==>
      Remaining(cfg.attemptCeiling, r.attempt) <= c
  {
    hide IsRun, ShelfRecoveries, AllOrdinary, NeverStalls;
    forall es | IsRun(cfg, r, es) && AllOrdinary(es)
      ensures ShelfRecoveries(cfg, r, es) <= Remaining(cfg.attemptCeiling, r.attempt) {
      OrdinaryNeverStalls(cfg, r, es);
      ShelfRecoveriesBounded(cfg, r, es);
    }
    var k := Remaining(cfg.attemptCeiling, r.attempt);
    if r.attempt <= cfg.attemptCeiling {
      ShelvedAgainCounts(cfg, r, k);
      assert ShelfRecoveries(cfg, r, ShelvedAgain(r, k)) == k;
    }
  }

  // ----- one pass over the table -----

  datatype Summary = Summary(left: nat, shelved: nat, decomposed: nat, requeued: nat,
                             escalated: nat, revised: nat, reclaimed: nat) {
    function Total(): nat {
      left + shelved + decomposed + requeued + escalated + revised + reclaimed
    }

    function Count(b: Bucket): nat {
      match b
      case Left => left
      case Shelved => shelved
      case Decomposed => decomposed
      case Requeued => requeued
      case Escalated => escalated
      case Revised => revised
      case Reclaimed => reclaimed
    }

    function Add(b: Bucket): (s: Summary)
      ensures s.Total() == Total() + 1
      ensures forall c :: s.Count(c) == Count(c) + (if c == b then 1 else 0)
    {
      match b
      case Left => this.(left := left + 1)
      case Shelved => this.(shelved := shelved + 1)
      case Decomposed => this.(decomposed := decomposed + 1)
      case Requeued => this.(requeued := requeued + 1)
      case Escalated => this.(escalated := escalated + 1)
      case Revised => this.(revised := revised + 1)
      case Reclaimed => this.(reclaimed := reclaimed + 1)
    }
  }

  /** The blocked rows among the first `n`. */
  function BlockedAmong(rows: seq<Row>, n: nat): set<int>
    requires n <= |rows|
  {
    set i | 0 <= i < n && rows[i].state in {BLOCKED, CONFLICT, TESTFAIL}
  }

  /** The row is among the first `limit` blocked ones. */
  predicate Fetched(rows: seq<Row>, i: nat, limit: nat)
    requires i < |rows|
  {
    rows[i].state in {BLOCKED, CONFLICT, TESTFAIL} && |BlockedAmong(rows, i)| < limit
  }

  lemma BlockedNext(rows: seq<Row>, i: nat)
    requires i < |rows|
    ensures |BlockedAmong(rows, i + 1)| == |BlockedAmong(rows, i)| + (if IsBlocked(rows[i].state) then 1 else 0)
  {
    assert BlockedAmong(rows, i + 1) == BlockedAmong(rows, i) + if IsBlocked(rows[i].state) then {i} else {};
  }

  /** The fetched rows among the first `n` that fall into this bucket. */
  function Fallen(cfg: Config, rows: seq<Row>, sigs: seq<Signals>, limit: nat, n: nat, b: Bucket): set<int>
    requires n <= |rows| == |sigs|
  {
    set i | 0 <= i < n && Fetched(rows, i, limit) && Falls(cfg, rows[i], sigs[i], b)
  }

  lemma FallenNext(cfg: Config, rows: seq<Row>, sigs: seq<Signals>, limit: nat, i: nat, b: Bucket)
    requires i < |rows| == |sigs|
    ensures |Fallen(cfg, rows, sigs, limit, i + 1, b)| == |Fallen(cfg, rows, sigs, limit, i, b)|
      + (if Fetched(rows, i, limit) && Falls(cfg, rows[i], sigs[i], b) then 1 else 0)
  {
    hide Falls, Fetched;
    assert Fallen(cfg, rows, sigs, limit, i + 1, b) == Fallen(cfg, rows, sigs, limit, i, b)
      + if Fetched(rows, i, limit) && Falls(cfg, rows[i], sigs[i], b) then {i} else {};
  }

  class TaskTable {
    var rows: seq<Row>

    /** One pass visits each fetched row once and leaves the others alone.  Each visit comes to exactly what is to
        become of the row, and the summary counts in each bucket the fetched rows that fall into it. */
    method RunPass(cfg: Config, sigs: seq<Signals>, limit: nat) returns (summary: Summary)
      requires |sigs| == |rows|
      modifies this
      ensures |rows| == |old(rows)|
      ensures forall i :: 0 <= i < |rows| && !Fetched(old(rows), i, limit) ==> rows[i] == old(rows)[i]
      ensures forall i :: 0 <= i < |rows| && Fetched(old(rows), i, limit) ==>
        && Treated(cfg, old(rows)[i], sigs[i], rows[i])
        && rows[i] == Happen(cfg, old(rows)[i], Run(sigs[i])).row
      ensures forall b :: summary.Count(b) == |Fallen(cfg, old(rows), sigs, limit, |sigs|, b)|
      ensures summary.left == |set i | 0 <= i < |sigs| && Fetched(old(rows), i, limit) && LeftAlone(old(rows)[i], sigs[i])|
      ensures var n := |BlockedAmong(old(rows), |sigs|)|; summary.Total() == if n < limit then n else limit
    {
      hide RunRow, IsBlocked, BlockedAmong, Treated, Falls, LeftAlone, Fallen;
      summary := Summary(0, 0, 0, 0, 0, 0, 0);
      NothingVisited(cfg, rows, sigs, limit);
      ghost var was := rows;
      var i := 0;
      while i < |rows|
        invariant i <= |rows| == |was|
        invariant forall j :: i <= j < |rows| ==> rows[j] == was[j]
        invariant forall j :: 0 <= j < i && !Fetched(was, j, limit) ==> rows[j] == was[j]
        invariant forall j :: 0 <= j < i && Fetched(was, j, limit) ==>
          Treated(cfg, was[j], sigs[j], rows[j]) && rows[j] == RunRow(cfg, was[j], sigs[j]).0.row
        invariant forall b :: summary.Count(b) == |Fallen(cfg, was, sigs, limit, i, b)|
        invariant var n := |BlockedAmong(was, i)|; summary.Total() == if n < limit then n else limit
      {
        BlockedNext(was, i);
        forall b { FallenNext(cfg, was, sigs, limit, i, b); }
        FetchedIs(was, i, limit);
        if IsBlocked(rows[i].state) && summary.Total() < limit {
          RunRowIs(cfg, rows[i], sigs[i]);
          var (visit, bucket) := RunRow(cfg, rows[i], sigs[i]);
          rows := rows[i := visit.row];
          summary := summary.Add(bucket);
        }
        i := i + 1;
      }
      LeftFall(cfg, was, sigs, limit);
      assert summary.Count(Left) == summary.left;
    }
  }

  lemma FetchedIs(rows: seq<Row>, i: nat, limit: nat)
    requires i < |rows|
    ensures Fetched(rows, i, limit) <==> IsBlocked(rows[i].state) && |BlockedAmong(rows, i)| < limit
  {
  }

  lemma NothingVisited(cfg: Config, rows: seq<Row>, sigs: seq<Signals>, limit: nat)
    requires |rows| == |sigs|
    ensures BlockedAmong(rows, 0) == {} && forall b :: Fallen(cfg, rows, sigs, limit, 0, b) == {}
  {
  }

  lemma LeftFall(cfg: Config, rows: seq<Row>, sigs: seq<Signals>, limit: nat)
    requires |rows| == |sigs|
    ensures Fallen(cfg, rows, sigs, limit, |sigs|, Left)
      == set i | 0 <= i < |sigs| && Fetched(rows, i, limit) && LeftAlone(rows[i], sigs[i])
  {
  }
}
