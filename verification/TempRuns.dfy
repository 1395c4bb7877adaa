/**
 * Whole runs of the temporary-resource lifecycle: any order of persist, keep and
 * cleanup, with the shared limits changed by others at any moment in between.
 */
module TempRuns {
  import opened PathText
  import opened CleanupControl
  import opened TempLifecycle

  datatype Op =
    | Persist(target: Bytes, publish: NativePublish)
    | Keep(publish: NativePublish)
    | Cleanup(cleanup: NativeCleanup)

  datatype Report =
    | PublishReport(answer: Result<PersistOutcome, PersistFailure>)
    | CleanupReport(failure: Option<CleanupFailure>)

  /** One lifecycle call: the slot it found after its refresh, and what it left. */
  datatype Entry = Entry(
    op: Op, before: Option<NativeTemp>, attempt: Option<Attempt>, after: Option<NativeTemp>, report: Report)

  /** What never changes for one adapter. */
  datatype Adapter = Adapter(kind: Kind, authority: Authority, controlled: bool)

  datatype State = State(slot: Option<NativeTemp>, cell: Option<Limits>)

  datatype History = History(state: State, log: seq<Entry>)

  /** A lifecycle call reads the limits first (`Refresh`) and acts later (`Finish`). */
  datatype Event = SetLimits(limits: Option<Limits>) | Refresh | Finish(op: Op)

  function Act(slot: Option<NativeTemp>, op: Op, a: Adapter): (e: Entry)
    ensures e.op == op && e.before == slot
  {
    match op
    case Persist(target, publish) =>
      var step := PersistStep(slot, target, a.authority, publish);
      Entry(op, slot, step.attempt, step.slot, PublishReport(step.answer))
    case Keep(publish) =>
      var step := KeepStep(slot, a.authority, publish);
      Entry(op, slot, step.attempt, step.slot, PublishReport(step.answer))
    case Cleanup(cleanup) =>
      var step := CleanupStep(slot, a.kind, cleanup);
      Entry(op, slot, step.attempt, step.slot, CleanupReport(step.failure))
  }

  function RefreshSlot(s: State, a: Adapter): Option<NativeTemp> {
    Refreshed(s.slot, a.kind, if a.controlled then Some(s.cell) else None)
  }

  function Run(s: State, events: seq<Event>, a: Adapter): History
    decreases |events|
  {
    if events == [] then History(s, [])
    else
      match events[0]
      case SetLimits(limits) => Run(s.(cell := limits), events[1..], a)
      case Refresh => Run(s.(slot := RefreshSlot(s, a)), events[1..], a)
      case Finish(op) =>
        var entry := Act(s.slot, op, a);
        var rest := Run(s.(slot := entry.after), events[1..], a);
        History(rest.state, [entry] + rest.log)
  }

  // ---- The native contract ----

  predicate LawfulPublish(publish: NativePublish) {
    publish.Failed? ==>
      && publish.source == publish.returned.source
      && (publish.publication.Published? ==> !publish.returned.source.Owned?)
  }

  /**
   * All that is assumed of native answers: a failure reports the state of the
   * resource it returns, a failure after publication no longer owns its source,
   * and cleanup gives no authority back.
   */
  predicate Lawful(slot: Option<NativeTemp>, op: Op) {
    match op
    case Persist(_, publish) => LawfulPublish(publish)
    case Keep(publish) => LawfulPublish(publish)
    case Cleanup(cleanup) => cleanup.returned.source.Owned? ==> Owns(slot)
  }

  predicate LawfulRun(s: State, events: seq<Event>, a: Adapter)
    decreases |events|
  {
    events == [] ||
    match events[0]
    case SetLimits(limits) => LawfulRun(s.(cell := limits), events[1..], a)
    case Refresh => LawfulRun(s.(slot := RefreshSlot(s, a)), events[1..], a)
    case Finish(op) =>
      Lawful(s.slot, op) && LawfulRun(s.(slot := Act(s.slot, op, a).after), events[1..], a)
  }

  // ---- Authority never returns ----

  /** A publication call answered without reaching native code and without a change. */
  predicate Rejected(e: Entry) {
    e.report.PublishReport? ==>
      && e.attempt == None
      && e.after == e.before
      && e.report.answer == Err(PersistFailure(
           NoLongerOwned, Some(Unchanged),
           PersistFailureState(Publication.NotPublished, AuthorityOf(e.before)), None))
  }

  ghost predicate AllRejected(log: seq<Entry>) {
    forall i :: 0 <= i < |log| ==> Rejected(log[i])
  }

  lemma UnownedStep(slot: Option<NativeTemp>, op: Op, a: Adapter)
    requires !Owns(slot) && Lawful(slot, op)
    ensures !Owns(Act(slot, op, a).after)
    ensures Rejected(Act(slot, op, a))
  {
  }

  /** Once the source is not owned, no later persist or keep reaches native code. */
  lemma {:induction false} AuthorityNeverReturns(s: State, events: seq<Event>, a: Adapter)
    requires !Owns(s.slot) && LawfulRun(s, events, a)
    ensures var h := Run(s, events, a);
            !Owns(h.state.slot) && AllRejected(h.log)
    decreases |events|
  {
    if events != [] {
      match events[0]
      case SetLimits(limits) =>
        AuthorityNeverReturns(s.(cell := limits), events[1..], a);
      case Refresh =>
        AuthorityNeverReturns(s.(slot := RefreshSlot(s, a)), events[1..], a);
      case Finish(op) =>
        UnownedStep(s.slot, op, a);
        AuthorityNeverReturns(s.(slot := Act(s.slot, op, a).after), events[1..], a);
    }
  }

  // ---- At most one confirmed publication ----

  /** A success, or a failure that still confirms the target was published. */
  predicate Confirmed(e: Entry) {
    && e.report.PublishReport?
    && (e.report.answer.Ok? || PublishedState(e.report.answer.error.state))
  }

  function Confirmations(log: seq<Entry>): nat {
    if log == [] then 0 else (if Confirmed(log[0]) then 1 else 0) + Confirmations(log[1..])
  }

  lemma {:induction false} NoneConfirmed(log: seq<Entry>)
    requires AllRejected(log)
    ensures Confirmations(log) == 0
  {
    if log != [] {
      assert Rejected(log[0]);
      NoneConfirmed(log[1..]);
    }
  }

  lemma ConfirmationReleases(slot: Option<NativeTemp>, op: Op, a: Adapter)
    requires Lawful(slot, op) && Confirmed(Act(slot, op, a))
    ensures Owns(slot) && !Owns(Act(slot, op, a).after)
  {
  }

  /** Over any run at most one publication is confirmed, and it ends the authority. */
  lemma {:induction false} AtMostOneConfirmed(s: State, events: seq<Event>, a: Adapter)
    requires LawfulRun(s, events, a)
    ensures var h := Run(s, events, a);
            && Confirmations(h.log) <= 1
            && (Confirmations(h.log) == 1 ==> Owns(s.slot) && !Owns(h.state.slot))
    decreases |events|
  {
    if events != [] {
      match events[0]
      case SetLimits(limits) =>
        AtMostOneConfirmed(s.(cell := limits), events[1..], a);
      case Refresh =>
        AtMostOneConfirmed(s.(slot := RefreshSlot(s, a)), events[1..], a);
      case Finish(op) =>
        var entry := Act(s.slot, op, a);
        var next := s.(slot := entry.after);
        var rest := Run(next, events[1..], a);
        AtMostOneConfirmed(next, events[1..], a);
        assert ([entry] + rest.log)[1..] == rest.log;
        if Confirmed(entry) {
          ConfirmationReleases(s.slot, op, a);
          AuthorityNeverReturns(next, events[1..], a);
          NoneConfirmed(rest.log);
        } else if !Owns(s.slot) {
          AuthorityNeverReturns(s, events, a);
          NoneConfirmed([entry] + rest.log);
        }
    }
  }

  // ---- Reports are truthful and the resource is conserved ----

  predicate NativelyPublished(e: Entry) {
    match e.op
    case Persist(_, publish) => e.attempt.Some? && publish.Completed?
    case Keep(publish) => e.attempt.Some? && publish.Completed?
    case Cleanup(_) => false
  }

  /** Native code confirmed that the target exists, by success or in a failure. */
  predicate ConfirmedNatively(e: Entry) {
    NativelyPublished(e) ||
    match e.op
    case Persist(_, publish) => e.attempt.Some? && publish.Failed? && publish.publication.Published?
    case Keep(publish) => e.attempt.Some? && publish.Failed? && publish.publication.Published?
    case Cleanup(_) => false
  }

  /** The slot is emptied by native publication and by nothing else. */
  predicate Conserved(e: Entry) {
    && (e.after.None? <==> e.before.None? || NativelyPublished(e))
    && (e.attempt.Some? ==> e.before == Some(e.attempt.value.value))
    && (e.attempt.None? ==> e.after == e.before)
  }

  predicate Matched(e: Entry) {
    e.report.CleanupReport? <==> e.op.Cleanup?
  }

  predicate Truthful(e: Entry)
    requires Matched(e)
  {
    match e.report
    case CleanupReport(failure) =>
      && (failure == Some(CleanupTerminal) <==> e.before.None?)
      && (failure == None <==> e.before.Some? && e.op.cleanup.Removed?)
      && (failure.Some? && !failure.value.CleanupTerminal? ==>
            (failure.value.SourceUncertain? <==> AuthorityOf(e.after).Indeterminate?))
    case PublishReport(Ok(_)) => NativelyPublished(e)
    case PublishReport(Err(failure)) =>
      && failure.reason != Terminal
      && (SourcePart(failure.state).Some? ==> SourcePart(failure.state) == Some(AuthorityOf(e.after)))
      && (SourcePart(failure.state).None? ==> e.attempt.Some? && !NativelyPublished(e))
      && (NativelyPublished(e) ==> PublishedState(failure.state) && failure.effect == Some(Applied))
      && (failure.effect.Some? ==> failure.effect == Some(PersistEffectState(failure.state)))
      && (failure.effect.None? <==> failure.reason.TargetUnmapped?)
      && (failure.reason.TargetUnmapped? ==> e.attempt.None? && Owns(e.after))
  }

  /**
   * The targets and publication facts in a report are those of this very call: the
   * requested target for persist, the expressible native target for keep.
   */
  predicate TargetsExact(e: Entry, a: Adapter)
    requires Matched(e)
  {
    match e.op
    case Persist(target, publish) =>
      && (e.attempt.Some? ==>
            e.attempt.value.PersistAttempt? && a.authority.toNative(target) == Some(e.attempt.value.target))
      && (e.report.answer.Ok? ==>
            publish.Completed? && e.report.answer.value == PersistOutcome(target, publish.facts))
      && (e.report.answer.Err? ==>
            e.report.answer.error.target == if e.attempt.Some? then Some(target) else None)
    case Keep(publish) =>
      && (e.attempt.Some? ==> e.attempt.value.KeepAttempt?)
      && (e.report.answer.Ok? ==>
            && publish.Completed?
            && a.authority.toLogical(publish.path) == Some(e.report.answer.value.target)
            && e.report.answer.value.facts == publish.facts)
      && (e.report.answer.Err? && e.report.answer.error.target.Some? ==>
            && publish.Failed? && publish.resolvedTarget.Some?
            && a.authority.toLogical(publish.resolvedTarget.value) == e.report.answer.error.target)
      && (e.report.answer.Err? && e.report.answer.error.reason.TargetUnexpressible? <==>
            && e.attempt.Some?
            && (publish.Completed? ==> a.authority.toLogical(publish.path).None?)
            && (publish.Failed? ==>
                  publish.resolvedTarget.Some? && a.authority.toLogical(publish.resolvedTarget.value).None?))
    case Cleanup(_) => e.attempt.Some? ==> e.attempt.value.CleanupAttempt?
  }

  /** Native code is called exactly when the authority, the slot and the target allow it. */
  predicate Reached(e: Entry, a: Adapter) {
    e.attempt.Some? <==>
      match e.op
      case Persist(target, _) => Owns(e.before) && a.authority.toNative(target).Some?
      case Keep(_) => Owns(e.before)
      case Cleanup(_) => e.before.Some?
  }

  function ReturnedBy(publish: NativePublish): Option<NativeTemp> {
    match publish
    case Completed(_, _) => None
    case Failed(_, _, returned, _) => Some(returned)
  }

  /** After native code was called the slot holds what it returned, however the call ended. */
  predicate Restored(e: Entry) {
    e.attempt.Some? ==>
      e.after == match e.op
                 case Persist(_, publish) => ReturnedBy(publish)
                 case Keep(publish) => ReturnedBy(publish)
                 case Cleanup(cleanup) => Some(cleanup.returned)
  }

  /** What a native publication answer must be reported as. */
  predicate PublicationReported(
    publish: NativePublish, answer: Result<PersistOutcome, PersistFailure>, target: Option<Bytes>)
  {
    match publish
    case Completed(_, facts) => answer.Ok? ==> answer.value.facts == facts
    case Failed(publication, source, _, _) =>
      && answer.Err? && answer.error.target == target
      && (answer.error.state.Indeterminate? <==>
            publication.Indeterminate? || (publication.Published? && source.Owned?))
      && (!answer.error.state.Indeterminate? ==>
            SourcePart(answer.error.state) == Some(source)
            && (PublishedState(answer.error.state) <==> publication.Published?))
  }

  function Expressed(publish: NativePublish, a: Adapter): Option<Bytes> {
    match publish
    case Completed(path, _) => a.authority.toLogical(path)
    case Failed(_, _, _, None) => None
    case Failed(_, _, _, Some(path)) => a.authority.toLogical(path)
  }

  /** Every native answer is passed on: success as success, a failure with its own state. */
  predicate NativeReported(e: Entry, a: Adapter)
    requires Matched(e)
  {
    match e.op
    case Persist(target, publish) =>
      && PublicationReported(publish, e.report.answer, Some(target))
      && (publish.Completed? ==> e.report.answer.Ok?)
      && (publish.Failed? ==> e.report.answer.error.reason.NativeFailure?)
    case Keep(publish) =>
      && PublicationReported(publish, e.report.answer, Expressed(publish, a))
      && (publish.Completed? ==> (e.report.answer.Ok? <==> Expressed(publish, a).Some?))
      && (e.report.answer.Err? ==>
            e.report.answer.error.reason.NativeFailure? || e.report.answer.error.reason.TargetUnexpressible?)
    case Cleanup(Removed(_)) => e.report.failure == None
    case Cleanup(NotRemoved(returned, invalidPath, effect)) =>
      if returned.source.Indeterminate? then
        e.report.failure == Some(SourceUncertain(if effect.Some? then effect.value else Unchanged))
      else if invalidPath && a.kind.Directory? then e.report.failure == Some(NotADirectory)
      else e.report.failure == Some(CleanupNativeFailure)
  }

  /** What keeps native code from being called is reported as such, what it answers is passed on. */
  predicate Reported(e: Entry, a: Adapter)
    requires Matched(e)
  {
    && (!Owns(e.before) ==> Rejected(e))
    && (e.attempt.None? && e.op.Persist? && Owns(e.before) ==>
          e.report == PublishReport(Err(PersistFailure(TargetUnmapped, None, PersistState.NotPublished, None))))
    && (e.attempt.Some? ==> NativeReported(e, a))
  }

  predicate Sound(e: Entry, a: Adapter) {
    && Matched(e) && Truthful(e) && Conserved(e) && TargetsExact(e, a)
    && (Confirmed(e) <==> ConfirmedNatively(e))
    && Reached(e, a) && Restored(e) && Reported(e, a)
  }

  ghost predicate AllSound(log: seq<Entry>, a: Adapter) {
    forall i :: 0 <= i < |log| ==> Sound(log[i], a)
  }

  lemma TruthfulStep(slot: Option<NativeTemp>, op: Op, a: Adapter)
    requires Lawful(slot, op)
    ensures Sound(Act(slot, op, a), a)
  {
  }

  /**
   * Over any run every report agrees with the slot it leaves, and no call answers
   * from the empty-slot branches of native persist and keep.
   */
  lemma {:induction false} ReportsTruthful(s: State, events: seq<Event>, a: Adapter)
    requires LawfulRun(s, events, a)
    ensures AllSound(Run(s, events, a).log, a)
    decreases |events|
  {
    if events != [] {
      match events[0]
      case SetLimits(limits) =>
        ReportsTruthful(s.(cell := limits), events[1..], a);
      case Refresh =>
        ReportsTruthful(s.(slot := RefreshSlot(s, a)), events[1..], a);
      case Finish(op) =>
        var entry := Act(s.slot, op, a);
        TruthfulStep(s.slot, op, a);
        ReportsTruthful(s.(slot := entry.after), events[1..], a);
    }
  }

  // ---- Between calls nothing but the limits changes ----

  /** A slot as a refresh may change it: the limits only, and those only under a control. */
  predicate Refreshes(before: Option<NativeTemp>, after: Option<NativeTemp>, a: Adapter) {
    && (before.None? <==> after.None?)
    && AuthorityOf(before) == AuthorityOf(after)
    && (a.kind.File? || !a.controlled ==> before == after)
  }

  /** What the first `i` calls left. */
  function LeftBy(slot: Option<NativeTemp>, log: seq<Entry>, i: nat): Option<NativeTemp>
    requires i <= |log|
  {
    if i == 0 then slot else log[i - 1].after
  }

  /** Each call finds what the call before it left, but for refreshed limits. */
  ghost predicate Chained(slot: Option<NativeTemp>, h: History, a: Adapter) {
    && (forall i :: 0 <= i < |h.log| ==> Refreshes(LeftBy(slot, h.log, i), h.log[i].before, a))
    && Refreshes(LeftBy(slot, h.log, |h.log|), h.state.slot, a)
  }

  lemma LeftByNone(slot: Option<NativeTemp>, log: seq<Entry>)
    ensures LeftBy(slot, log, 0) == slot
  {
  }

  lemma LeftByCons(slot: Option<NativeTemp>, entry: Entry, log: seq<Entry>, i: nat)
    requires i <= |log|
    ensures LeftBy(slot, [entry] + log, i + 1) == LeftBy(entry.after, log, i)
  {
    assert i > 0 ==> ([entry] + log)[i] == log[i - 1];
  }

  lemma ChainCons(entry: Entry, rest: History, a: Adapter)
    requires Chained(entry.after, rest, a)
    ensures Chained(entry.before, History(rest.state, [entry] + rest.log), a)
  {
    var log := [entry] + rest.log;
    assert Refreshes(entry.before, entry.before, a);
    hide Refreshes, LeftBy;
    LeftByNone(entry.before, log);
    forall i | 0 <= i < |log|
      ensures Refreshes(LeftBy(entry.before, log, i), log[i].before, a)
    {
      if i > 0 {
        assert log[i] == rest.log[i - 1];
        LeftByCons(entry.before, entry, rest.log, i - 1);
      }
    }
    LeftByCons(entry.before, entry, rest.log, |rest.log|);
  }

  lemma {:induction false} RunChained(s: State, events: seq<Event>, a: Adapter)
    ensures Chained(s.slot, Run(s, events, a), a)
    decreases |events|
  {
    if events != [] {
      match events[0]
      case SetLimits(limits) =>
        RunChained(s.(cell := limits), events[1..], a);
      case Refresh =>
        RunChained(s.(slot := RefreshSlot(s, a)), events[1..], a);
        assert Refreshes(s.slot, RefreshSlot(s, a), a);
      case Finish(op) =>
        var entry := Act(s.slot, op, a);
        RunChained(s.(slot := entry.after), events[1..], a);
        ChainCons(entry, Run(s.(slot := entry.after), events[1..], a), a);
    }
  }

  /** Assumed of native cleanup: a released source stays released. */
  predicate KeepsReleased(e: Entry) {
    e.op.Cleanup? && e.attempt.Some? && AuthorityOf(e.before).Released? ==> e.op.cleanup.returned.source.Released?
  }

  ghost predicate AllKeepReleased(log: seq<Entry>) {
    forall i :: 0 <= i < |log| ==> KeepsReleased(log[i])
  }

  predicate RejectedAsReleased(e: Entry) {
    && e.attempt == None && e.after == e.before
    && e.report == PublishReport(Err(PersistFailure(
         NoLongerOwned, Some(Unchanged), NotPublishedSourceReleased, None)))
  }

  lemma ReleasedStep(e: Entry, a: Adapter)
    requires Sound(e, a) && KeepsReleased(e) && AuthorityOf(e.before).Released?
    ensures AuthorityOf(e.after).Released?
  {
    hide Truthful, TargetsExact, Reported;
  }

  lemma {:induction false} ReleasedStays(h: History, slot: Option<NativeTemp>, a: Adapter, i: nat, k: nat)
    requires Chained(slot, h, a) && AllSound(h.log, a) && AllKeepReleased(h.log)
    requires i < k < |h.log| && AuthorityOf(h.log[i].after).Released?
    ensures AuthorityOf(h.log[k].before).Released?
    decreases k
  {
    hide Sound, KeepsReleased;
    assert LeftBy(slot, h.log, k) == h.log[k - 1].after;
    if i < k - 1 {
      ReleasedStays(h, slot, a, i, k - 1);
      assert Sound(h.log[k - 1], a) && KeepsReleased(h.log[k - 1]);
      ReleasedStep(h.log[k - 1], a);
    }
  }

  /**
   * Once a cleanup has returned a released source, or a publication has succeeded,
   * every later persist or keep is rejected with the released state.
   */
  lemma ReleasedForever(s: State, events: seq<Event>, a: Adapter, i: nat, k: nat)
    requires LawfulRun(s, events, a) && AllKeepReleased(Run(s, events, a).log)
    requires i < k < |Run(s, events, a).log| && !Run(s, events, a).log[k].op.Cleanup?
    requires var e := Run(s, events, a).log[i];
             || (e.op.Cleanup? && e.attempt.Some? && e.op.cleanup.returned.source.Released?)
             || NativelyPublished(e)
    ensures RejectedAsReleased(Run(s, events, a).log[k])
  {
    var h := Run(s, events, a);
    ReportsTruthful(s, events, a);
    RunChained(s, events, a);
    assert Sound(h.log[i], a);
    ReleasedStays(h, s.slot, a, i, k);
    assert Sound(h.log[k], a);
  }

  // ---- Budget snapshots ----

  /** Calls on one adapter do not overlap: each refresh is finished before the next. */
  predicate Complete(events: seq<Event>) {
    events == [] ||
    match events[0]
    case SetLimits(_) => Complete(events[1..])
    case Refresh => Pending(events[1..])
    case Finish(_) => false
  }

  predicate Pending(events: seq<Event>) {
    events != [] &&
    match events[0]
    case SetLimits(_) => Pending(events[1..])
    case Refresh => false
    case Finish(_) => Complete(events[1..])
  }

  /** For every finished call, the value of the control its refresh read. */
  function Snapshots(cell: Option<Limits>, read: Option<Limits>, events: seq<Event>): seq<Option<Limits>>
    decreases |events|
  {
    if events == [] then []
    else
      match events[0]
      case SetLimits(limits) => Snapshots(limits, read, events[1..])
      case Refresh => Snapshots(cell, cell, events[1..])
      case Finish(_) => [read] + Snapshots(cell, read, events[1..])
  }

  predicate RanUnder(e: Entry, read: Option<Limits>) {
    e.attempt.Some? ==> e.attempt.value.value.limits == Native(read)
  }

  ghost predicate AllRanUnder(log: seq<Entry>, taken: seq<Option<Limits>>) {
    |log| == |taken| && forall i :: 0 <= i < |log| ==> RanUnder(log[i], taken[i])
  }

  predicate ReadFrom(slot: Option<NativeTemp>, read: Option<Limits>) {
    slot.Some? ==> slot.value.limits == Native(read)
  }

  /** Each native attempt of a controlled directory runs under its own snapshot. */
  lemma {:induction false} AttemptsUseSnapshots(s: State, read: Option<Limits>, events: seq<Event>, a: Adapter)
    requires a.kind == Directory && a.controlled
    requires Complete(events) || (Pending(events) && ReadFrom(s.slot, read))
    ensures AllRanUnder(Run(s, events, a).log, Snapshots(s.cell, read, events))
    decreases |events|
  {
    if events != [] {
      match events[0]
      case SetLimits(limits) =>
        AttemptsUseSnapshots(s.(cell := limits), read, events[1..], a);
      case Refresh =>
        AttemptsUseSnapshots(s.(slot := RefreshSlot(s, a)), s.cell, events[1..], a);
      case Finish(op) =>
        AttemptsUseSnapshots(s.(slot := Act(s.slot, op, a).after), read, events[1..], a);
    }
  }

  // ---- Interleavings refine atomic calls ----

  datatype Action = Set(limits: Option<Limits>) | Call(op: Op)

  function RunAtomic(s: State, actions: seq<Action>, a: Adapter): History
    decreases |actions|
  {
    if actions == [] then History(s, [])
    else
      match actions[0]
      case Set(limits) => RunAtomic(s.(cell := limits), actions[1..], a)
      case Call(op) =>
        var entry := Act(RefreshSlot(s, a), op, a);
        var rest := RunAtomic(s.(slot := entry.after), actions[1..], a);
        History(rest.state, [entry] + rest.log)
  }

  /** Every call moves to the moment of its refresh, before the sets that raced it. */
  function Linearized(events: seq<Event>): seq<Action>
    requires Complete(events)
    decreases |events|
  {
    if events == [] then []
    else if events[0].SetLimits? then [Set(events[0].limits)] + Linearized(events[1..])
    else LinearizedCall(events[1..], [])
  }

  function LinearizedCall(events: seq<Event>, raced: seq<Action>): seq<Action>
    requires Pending(events)
    decreases |events|
  {
    if events[0].SetLimits? then LinearizedCall(events[1..], raced + [Set(events[0].limits)])
    else [Call(events[0].op)] + raced + Linearized(events[1..])
  }

  function LastSet(cell: Option<Limits>, sets: seq<Action>): Option<Limits>
    requires forall i :: 0 <= i < |sets| ==> sets[i].Set?
    decreases |sets|
  {
    if sets == [] then cell else LastSet(sets[0].limits, sets[1..])
  }

  lemma {:induction false} LastSetSnoc(cell: Option<Limits>, sets: seq<Action>, limits: Option<Limits>)
    requires forall i :: 0 <= i < |sets| ==> sets[i].Set?
    ensures LastSet(cell, sets + [Set(limits)]) == limits
    decreases |sets|
  {
    if sets != [] {
      LastSetSnoc(sets[0].limits, sets[1..], limits);
      assert (sets + [Set(limits)])[1..] == sets[1..] + [Set(limits)];
    }
  }

  lemma {:induction false} RunSets(s: State, sets: seq<Action>, rest: seq<Action>, a: Adapter)
    requires forall i :: 0 <= i < |sets| ==> sets[i].Set?
    ensures RunAtomic(s, sets + rest, a) == RunAtomic(s.(cell := LastSet(s.cell, sets)), rest, a)
    decreases |sets|
  {
    if sets == [] {
      assert sets + rest == rest;
    } else {
      RunSets(s.(cell := sets[0].limits), sets[1..], rest, a);
      assert (sets + rest)[1..] == sets[1..] + rest;
    }
  }

  /**
   * Any interleaving with the shared control has the same answers and the same
   * final state as calls that read the limits and act in one step.
   */
  lemma {:induction false} InterleavingIsAtomic(s: State, events: seq<Event>, a: Adapter)
    requires Complete(events)
    ensures Run(s, events, a) == RunAtomic(s, Linearized(events), a)
    decreases |events|
  {
    if events != [] {
      if events[0].SetLimits? {
        var rest := Linearized(events[1..]);
        InterleavingIsAtomic(s.(cell := events[0].limits), events[1..], a);
        assert ([Set(events[0].limits)] + rest)[1..] == rest;
      } else {
        CallIsAtomic(s, [], events[1..], a);
      }
    }
  }

  lemma {:induction false} CallIsAtomic(s: State, raced: seq<Action>, events: seq<Event>, a: Adapter)
    requires Pending(events)
    requires forall i :: 0 <= i < |raced| ==> raced[i].Set?
    ensures Run(State(RefreshSlot(s, a), LastSet(s.cell, raced)), events, a)
         == RunAtomic(s, LinearizedCall(events, raced), a)
    decreases |events|
  {
    match events[0]
    case SetLimits(limits) =>
      LastSetSnoc(s.cell, raced, limits);
      CallIsAtomic(s, raced + [Set(limits)], events[1..], a);
    case Finish(op) =>
      var after := Act(RefreshSlot(s, a), op, a).after;
      var rest := Linearized(events[1..]);
      assert [Call(op)] + raced + rest == [Call(op)] + (raced + rest);
      RunSets(s.(slot := after), raced, rest, a);
      InterleavingIsAtomic(State(after, LastSet(s.cell, raced)), events[1..], a);
  }

  /** Each atomic call as its refresh followed at once by its action. */
  function Expanded(actions: seq<Action>): seq<Event> {
    if actions == [] then []
    else
      match actions[0]
      case Set(limits) => [SetLimits(limits)] + Expanded(actions[1..])
      case Call(op) => [Refresh, Finish(op)] + Expanded(actions[1..])
  }

  /** The atomic machine is a run, so what holds of every run holds of it. */
  lemma {:induction false} AtomicIsRun(s: State, actions: seq<Action>, a: Adapter)
    ensures Complete(Expanded(actions))
    ensures RunAtomic(s, actions, a) == Run(s, Expanded(actions), a)
    decreases |actions|
  {
    if actions != [] {
      var events, rest := Expanded(actions), Expanded(actions[1..]);
      match actions[0]
      case Set(limits) =>
        AtomicIsRun(s.(cell := limits), actions[1..], a);
        assert events[1..] == rest;
      case Call(op) =>
        var refreshed := RefreshSlot(s, a);
        AtomicIsRun(s.(slot := Act(refreshed, op, a).after), actions[1..], a);
        assert events[1..] == [Finish(op)] + rest;
        assert events[1..][1..] == rest;
    }
  }

  // ---- The adapter runs this machine ----

  function ReportsOf(log: seq<Entry>): seq<Report> {
    if log == [] then [] else [log[0].report] + ReportsOf(log[1..])
  }

  /** The native calls that were made, in order. */
  function AttemptsOf(log: seq<Entry>): seq<Attempt> {
    if log == [] then []
    else (if log[0].attempt.Some? then [log[0].attempt.value] else []) + AttemptsOf(log[1..])
  }

  ghost predicate OnlyCleanups(attempts: seq<Attempt>) {
    forall i :: 0 <= i < |attempts| ==> attempts[i].CleanupAttempt?
  }

  lemma {:induction false} RejectedAttempts(log: seq<Entry>, a: Adapter)
    requires AllRejected(log) && AllSound(log, a)
    ensures OnlyCleanups(AttemptsOf(log))
  {
    if log != [] {
      assert Rejected(log[0]) && Sound(log[0], a);
      RejectedAttempts(log[1..], a);
    }
  }

  /** A script on an adapter without authority makes no native call but cleanup. */
  lemma UnownedAttempts(s: State, script: seq<Action>, a: Adapter)
    requires !Owns(s.slot) && LawfulRun(s, Expanded(script), a)
    ensures OnlyCleanups(AttemptsOf(RunAtomic(s, script, a).log))
  {
    AtomicIsRun(s, script, a);
    AuthorityNeverReturns(s, Expanded(script), a);
    ReportsTruthful(s, Expanded(script), a);
    RejectedAttempts(RunAtomic(s, script, a).log, a);
  }

  ghost function AdapterOf(spi: LocalTempResourceSpi): Adapter {
    Adapter(spi.kind, spi.authority, spi.control != null)
  }

  method Perform(spi: LocalTempResourceSpi, op: Op) returns (report: Report)
    modifies spi
    ensures var control := if spi.control == null then None else Some(old(spi.control.current));
            var entry := Act(Refreshed(old(spi.resource), spi.kind, control), op, AdapterOf(spi));
            && spi.resource == entry.after && report == entry.report
            && spi.attempts == old(spi.attempts) + AttemptsOf([entry])
  {
    match op
    case Persist(target, publish) =>
      var answer := spi.Persist(target, publish);
      return PublishReport(answer);
    case Keep(publish) =>
      var answer := spi.Keep(publish);
      return PublishReport(answer);
    case Cleanup(cleanup) =>
      var failure := spi.Cleanup(cleanup);
      return CleanupReport(failure);
  }

  /** Any script leaves what the atomic machine computes, and makes its native calls only. */
  method Replay(spi: LocalTempResourceSpi, script: seq<Action>, ghost cell: Option<Limits>)
    returns (reports: seq<Report>)
    requires spi.control != null ==> cell == spi.control.current
    modifies spi, if spi.control == null then {} else {spi.control}
    ensures var h := RunAtomic(State(old(spi.resource), cell), script, AdapterOf(spi));
            && spi.resource == h.state.slot
            && (spi.control != null ==> spi.control.current == h.state.cell)
            && reports == ReportsOf(h.log)
            && spi.attempts == old(spi.attempts) + AttemptsOf(h.log)
    decreases |script|
  {
    if script == [] {
      return [];
    }
    match script[0] {
      case Set(limits) =>
        if spi.control != null {
          spi.control.SetLimits(limits);
        }
        reports := Replay(spi, script[1..], limits);
      case Call(op) =>
        ghost var entry := Act(RefreshSlot(State(spi.resource, cell), AdapterOf(spi)), op, AdapterOf(spi));
        var report := Perform(spi, op);
        var rest := Replay(spi, script[1..], cell);
        reports := [report] + rest;
        ghost var log := RunAtomic(State(entry.after, cell), script[1..], AdapterOf(spi)).log;
        assert ([entry] + log)[1..] == log;
    }
  }
}
