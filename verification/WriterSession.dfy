/** The writer session adapter: one native writer, one commit, one abort answer. */
module WriterSession {
  import opened PathText

  // ---- Native answers ----

  /** The native writer with the bytes it has accepted. */
  datatype NativeWriter = NativeWriter(accepted: Bytes)

  datatype NativeState = NotPublished | Published | Indeterminate

  datatype NativeMethod = AtomicRename | DirectAppend | Other

  datatype NativeCommit =
    | Committed(atomic: bool, publication: NativeMethod, bytesWritten: nat, durable: bool)
    | CommitFailed(state: NativeState, retained: Option<NativeWriter>)

  datatype NativeAbort =
    | Aborted(failureState: Option<NativeState>)
    | AbortFailed

  // ---- Portable states ----

  datatype FailureState = RetryableNotPublished | NotPublished | Published | Indeterminate

  datatype AbortOutcome = NotPublished | Published | Indeterminate

  datatype Effect = Unchanged | Applied | Indeterminate

  datatype WriteOutcome = WriteOutcome(atomic: bool, atomicRename: bool, bytesWritten: nat, durable: bool)

  datatype FailureKind = InvalidState | NativeFailure

  /** A failed commit: its kind, the effect attached to the error, and the reported state. */
  datatype WriteFailure = WriteFailure(kind: FailureKind, effect: Option<Effect>, state: FailureState)

  datatype AbortFailure = AbortTerminal | NativeAbortFailed

  function WriteFailureState(state: NativeState, retained: bool): FailureState {
    match state
    case NotPublished => if retained then RetryableNotPublished else FailureState.NotPublished
    case Published => FailureState.Published
    case Indeterminate => FailureState.Indeterminate
  }

  function WriteEffectState(state: FailureState): Effect {
    match state
    case RetryableNotPublished | NotPublished => Unchanged
    case Published => Applied
    case Indeterminate => Effect.Indeterminate
  }

  function AbortOutcomeFromFailure(state: FailureState): AbortOutcome {
    match state
    case RetryableNotPublished | NotPublished => AbortOutcome.NotPublished
    case Published => AbortOutcome.Published
    case Indeterminate => AbortOutcome.Indeterminate
  }

  function AbortOutcomeOf(state: Option<NativeState>): AbortOutcome {
    match state
    case None | Some(NotPublished) => AbortOutcome.NotPublished
    case Some(Published) => AbortOutcome.Published
    case Some(Indeterminate) => AbortOutcome.Indeterminate
  }

  function OutcomeOf(commit: NativeCommit): WriteOutcome
    requires commit.Committed?
  {
    var rename := match commit.publication
                  case AtomicRename => true
                  case DirectAppend => false
                  case Other => commit.atomic;
    WriteOutcome(commit.atomic, rename, commit.bytesWritten, commit.durable)
  }

  /** The answer to a commit on a terminal session. */
  const REFUSED: WriteFailure := WriteFailure(InvalidState, None, FailureState.NotPublished)

  function NativeCommitFailure(state: FailureState): WriteFailure {
    WriteFailure(NativeFailure, Some(WriteEffectState(state)), state)
  }

  // ---- Steps ----

  datatype Session = Session(writer: Option<NativeWriter>, terminal: Option<AbortOutcome>)

  datatype Call =
    | Write(input: Bytes, taken: Option<nat>)  // bytes the native writer takes, or its I/O error
    | Flush(succeeds: bool)
    | Commit(commit: NativeCommit)
    | Abort(abort: NativeAbort)

  datatype Report =
    | Wrote(count: Option<nat>)          // None is an I/O error
    | Flushed(succeeded: bool)
    | CommitAnswer(result: Result<WriteOutcome, WriteFailure>)
    | AbortAnswer(answer: Result<AbortOutcome, AbortFailure>)

  /** The new session, the writer handed to native commit if there was one, and the report. */
  datatype Stepped = Stepped(session: Session, handed: Option<NativeWriter>, report: Report)

  function WriteStep(s: Session, input: Bytes, taken: Option<nat>): Stepped
    requires taken.Some? ==> taken.value <= |input|
  {
    if s.writer.None? || taken.None? then Stepped(s, None, Wrote(None))
    else
      var writer := NativeWriter(s.writer.value.accepted + input[..taken.value]);
      Stepped(s.(writer := Some(writer)), None, Wrote(taken))
  }

  function CommitStep(s: Session, commit: NativeCommit): Stepped {
    if s.writer.None? then Stepped(s, None, CommitAnswer(Err(REFUSED)))
    else
      match commit
      case Committed(_, _, _, _) => Stepped(s.(writer := None), s.writer, CommitAnswer(Ok(OutcomeOf(commit))))
      case CommitFailed(native, retained) =>
        var state := WriteFailureState(native, retained.Some?);
        var terminal := if retained.Some? then s.terminal else Some(AbortOutcomeFromFailure(state));
        Stepped(Session(retained, terminal), s.writer, CommitAnswer(Err(NativeCommitFailure(state))))
  }

  function AbortStep(s: Session, abort: NativeAbort): Stepped {
    if s.writer.None? then
      if s.terminal.Some? then Stepped(s.(terminal := None), None, AbortAnswer(Ok(s.terminal.value)))
      else Stepped(s, None, AbortAnswer(Err(AbortTerminal)))
    else
      match abort
      case Aborted(failureState) => Stepped(s.(writer := None), None, AbortAnswer(Ok(AbortOutcomeOf(failureState))))
      case AbortFailed => Stepped(s, None, AbortAnswer(Err(NativeAbortFailed)))
  }

  /** A native writer takes no more bytes than it is given. */
  predicate WellFormed(call: Call) {
    call.Write? && call.taken.Some? ==> call.taken.value <= |call.input|
  }

  function Step(s: Session, call: Call): Stepped
    requires WellFormed(call)
  {
    match call
    case Write(input, taken) => WriteStep(s, input, taken)
    case Flush(succeeds) => Stepped(s, None, Flushed(s.writer.Some? && succeeds))
    case Commit(commit) => CommitStep(s, commit)
    case Abort(abort) => AbortStep(s, abort)
  }

  // ---- The adapter ----

  class LocalFileWriterSpi {
    var writer: Option<NativeWriter>
    var terminalAbortOutcome: Option<AbortOutcome>
    /** Every writer handed to native commit so far. */
    ghost var handed: seq<NativeWriter>

    ghost function Current(): Session
      reads this
    {
      Session(writer, terminalAbortOutcome)
    }

    constructor (writer: NativeWriter)
      ensures Current() == Session(Some(writer), None) && handed == []
    {
      this.writer, terminalAbortOutcome, handed := Some(writer), None, [];
    }

    method WriteUnchecked(input: Bytes, index: nat, count: nat, taken: Option<nat>) returns (r: Option<nat>)
      requires index + count <= |input| && (taken.Some? ==> taken.value <= count)
      modifies this`writer
      ensures var step := WriteStep(old(Current()), input[index..index + count], taken);
              Current() == step.session && Wrote(r) == step.report
    {
      if writer.None? {
        return None;
      }
      var slice := input[index..index + count];
      if taken.None? {
        return None;
      }
      writer := Some(NativeWriter(writer.value.accepted + slice[..taken.value]));
      return taken;
    }

    method FlushWriter(succeeds: bool) returns (ok: bool)
      ensures ok == (writer.Some? && succeeds)
    {
      ok := if writer.None? then false else succeeds;
    }

    method CommitWriter(commit: NativeCommit) returns (r: Result<WriteOutcome, WriteFailure>)
      modifies this
      ensures var step := CommitStep(old(Current()), commit);
              && Current() == step.session && CommitAnswer(r) == step.report
              && handed == old(handed) + if step.handed.Some? then [step.handed.value] else []
    {
      var taken := writer;
      writer := None;
      if taken.None? {
        return Err(WriteFailure(InvalidState, None, FailureState.NotPublished));
      }
      handed := handed + [taken.value];
      match commit
      case Committed(atomic, nativeMethod, bytesWritten, durable) =>
        var rename := if nativeMethod.AtomicRename? then true
                      else if nativeMethod.DirectAppend? then false else atomic;
        return Ok(WriteOutcome(atomic, rename, bytesWritten, durable));
      case CommitFailed(native, retained) =>
        writer := retained;
        var state := WriteFailureState(native, writer.Some?);
        if writer.None? {
          terminalAbortOutcome := Some(AbortOutcomeFromFailure(state));
        }
        return Err(WriteFailure(NativeFailure, Some(WriteEffectState(state)), state));
    }

    method AbortWriter(abort: NativeAbort) returns (r: Result<AbortOutcome, AbortFailure>)
      modifies this`writer, this`terminalAbortOutcome
      ensures var step := AbortStep(old(Current()), abort);
              Current() == step.session && AbortAnswer(r) == step.report
    {
      if writer.None? {
        var stored := terminalAbortOutcome;
        terminalAbortOutcome := None;
        if stored.Some? {
          return Ok(stored.value);
        }
        return Err(AbortTerminal);
      }
      match abort
      case Aborted(failureState) =>
        var outcome := AbortOutcomeOf(failureState);
        writer := None;
        return Ok(outcome);
      case AbortFailed =>
        return Err(NativeAbortFailed);
    }
  }

  // ---- Every sequence of calls ----

  /** One call: the session it found and what it did. */
  datatype Entry = Entry(call: Call, before: Session, step: Stepped)

  datatype History = History(last: Session, log: seq<Entry>)

  function EntryOf(s: Session, call: Call): Entry
    requires WellFormed(call)
  {
    Entry(call, s, Step(s, call))
  }

  ghost predicate AllWellFormed(calls: seq<Call>) {
    forall i :: 0 <= i < |calls| ==> WellFormed(calls[i])
  }

  ghost function Run(s: Session, calls: seq<Call>): (h: History)
    requires AllWellFormed(calls)
    ensures |h.log| == |calls|
    decreases |calls|
  {
    if calls == [] then History(s, [])
    else
      var entry := EntryOf(s, calls[0]);
      var rest := Run(entry.step.session, calls[1..]);
      History(rest.last, [entry] + rest.log)
  }

  /** A run of the first calls is the first part of the run; the next call continues it. */
  lemma {:induction false} RunPrefix(s: Session, calls: seq<Call>, k: nat)
    requires AllWellFormed(calls) && k <= |calls|
    ensures Run(s, calls[..k]).log == Run(s, calls).log[..k]
    ensures k < |calls| ==> Run(s, calls).log[k] == EntryOf(Run(s, calls[..k]).last, calls[k])
    ensures k == |calls| ==> Run(s, calls).last == Run(s, calls[..k]).last
    ensures k + 1 == |calls| ==> Run(s, calls).last == Run(s, calls).log[k].step.session
    decreases k
  {
    if k > 0 {
      var next := Step(s, calls[0]).session;
      RunPrefix(next, calls[1..], k - 1);
      assert calls[..k][1..] == calls[1..][..k - 1];
      assert calls[..k][0] == calls[0];
    } else if |calls| > 0 {
      assert calls[..0] == [];
      if |calls| == 1 {
        assert calls[1..] == [];
      }
    } else {
      assert calls[..0] == calls;
    }
  }

  function Reports(log: seq<Entry>): seq<Report> {
    if log == [] then [] else [log[0].step.report] + Reports(log[1..])
  }

  predicate Exclusive(s: Session) {
    !(s.writer.Some? && s.terminal.Some?)
  }

  predicate Live(s: Session) {
    s.writer.Some? && s.terminal.None?
  }

  predicate Closed(s: Session) {
    s.writer.None? && s.terminal.None?
  }

  /** A report that ends the session for its caller: a commit, or an abort answer. */
  predicate Final(r: Report) {
    (r.CommitAnswer? && r.result.Ok?) || (r.AbortAnswer? && r.answer.Ok?)
  }

  function Finals(log: seq<Entry>): nat {
    if log == [] then 0 else (if Final(log[0].step.report) then 1 else 0) + Finals(log[1..])
  }

  /** The report a call gets from a session that has nothing left to do. */
  function Refusal(call: Call): Report {
    match call
    case Write(_, _) => Wrote(None)
    case Flush(_) => Flushed(false)
    case Commit(_) => CommitAnswer(Err(REFUSED))
    case Abort(_) => AbortAnswer(Err(AbortTerminal))
  }

  /**
   * In every sequence of calls the live writer and the stored abort answer never
   * coexist, and at most one call ends the session: it is closed exactly when one
   * commit or one abort has been answered successfully.
   */
  lemma {:induction false} CommitAbortExclusive(s: Session, calls: seq<Call>)
    requires AllWellFormed(calls) && Exclusive(s)
    ensures var h := Run(s, calls);
            && Exclusive(h.last)
            && Finals(h.log) + (if Closed(s) then 1 else 0) == if Closed(h.last) then 1 else 0
    decreases |calls|
  {
    if calls != [] {
      var entry := EntryOf(s, calls[0]);
      var rest := Run(entry.step.session, calls[1..]);
      CommitAbortExclusive(entry.step.session, calls[1..]);
      assert ([entry] + rest.log)[1..] == rest.log;
    }
  }

  function FirstAbort(calls: seq<Call>): (k: nat)
    ensures k <= |calls| && (k < |calls| ==> calls[k].Abort?)
    ensures forall i :: 0 <= i < k ==> !calls[i].Abort?
  {
    if calls == [] || calls[0].Abort? then 0 else 1 + FirstAbort(calls[1..])
  }

  lemma FirstReport(s: Session, calls: seq<Call>)
    requires AllWellFormed(calls) && calls != []
    ensures var step := Step(s, calls[0]);
            && Reports(Run(s, calls).log) == [step.report] + Reports(Run(step.session, calls[1..]).log)
            && Run(s, calls).last == Run(step.session, calls[1..]).last
  {
    var entry := EntryOf(s, calls[0]);
    var rest := Run(entry.step.session, calls[1..]).log;
    assert ([entry] + rest)[1..] == rest;
  }

  /** Once closed, every later call is refused and nothing changes. */
  lemma {:induction false} ClosedForever(s: Session, calls: seq<Call>)
    requires AllWellFormed(calls) && Closed(s)
    ensures Run(s, calls).last == s
    ensures Reports(Run(s, calls).log) == seq(|calls|, i requires 0 <= i < |calls| => Refusal(calls[i]))
    decreases |calls|
  {
    if calls != [] {
      hide Run, Reports;
      ClosedForever(s, calls[1..]);
      FirstReport(s, calls);
    }
  }

  /** The stored outcome for the first abort, a refusal for every other call. */
  function AnsweredOnce(calls: seq<Call>, outcome: AbortOutcome): seq<Report> {
    seq(|calls|, i requires 0 <= i < |calls| =>
      if i == FirstAbort(calls) then AbortAnswer(Ok(outcome)) else Refusal(calls[i]))
  }

  lemma AnsweredFirst(calls: seq<Call>, outcome: AbortOutcome)
    requires calls != [] && !calls[0].Abort?
    ensures AnsweredOnce(calls, outcome) == [Refusal(calls[0])] + AnsweredOnce(calls[1..], outcome)
  {
  }

  /**
   * After a commit lost its writer, the first abort is answered with the stored
   * outcome and every other call, before or after it, is refused.
   */
  lemma {:induction false} StoredOutcomeAnsweredOnce(s: Session, calls: seq<Call>)
    requires AllWellFormed(calls)
    requires s.writer.None? && s.terminal.Some?
    ensures Reports(Run(s, calls).log) == AnsweredOnce(calls, s.terminal.value)
    ensures Run(s, calls).last == if FirstAbort(calls) < |calls| then Session(None, None) else s
    decreases |calls|
  {
    if calls != [] {
      hide Run, Reports;
      FirstReport(s, calls);
      if calls[0].Abort? {
        ClosedForever(Session(None, None), calls[1..]);
      } else {
        StoredOutcomeAnsweredOnce(s, calls[1..]);
        AnsweredFirst(calls, s.terminal.value);
      }
    }
  }

  /**
   * A commit that loses its writer is answered by exactly one abort, with the
   * outcome that failure stands for; everything else is refused from then on.
   */
  lemma UnrecoverableCommit(s: Session, native: NativeState, calls: seq<Call>)
    requires AllWellFormed(calls) && Live(s)
    ensures var state := WriteFailureState(native, false);
            Reports(Run(s, [Commit(CommitFailed(native, None))] + calls).log)
              == [CommitAnswer(Err(NativeCommitFailure(state)))] + AnsweredOnce(calls, AbortOutcomeOf(Some(native)))
  {
    var commit := Commit(CommitFailed(native, None));
    assert ([commit] + calls)[1..] == calls;
    FirstReport(s, [commit] + calls);
    StoredOutcomeAnsweredOnce(Step(s, commit).session, calls);
  }

  // ---- Every call is served ----

  /** A reported commit carries the native facts; other methods count as renames when atomic. */
  predicate OutcomeExact(commit: NativeCommit, outcome: WriteOutcome)
    requires commit.Committed?
  {
    && outcome.atomic == commit.atomic && outcome.durable == commit.durable
    && outcome.bytesWritten == commit.bytesWritten
    && (outcome.atomicRename <==>
          commit.publication.AtomicRename? || (commit.publication.Other? && commit.atomic))
  }

  /** A live writer is asked, its answer passed on, and it is given up only when native code takes it. */
  predicate ServedLive(e: Entry)
    requires e.before.writer.Some?
  {
    var step := e.step;
    match e.call
    case Write(_, taken) => step.report == Wrote(taken) && step.session.writer.Some? && step.handed.None?
    case Flush(succeeds) => step == Stepped(e.before, None, Flushed(succeeds))
    case Commit(Committed(_, _, _, _)) =>
      && step.handed == e.before.writer && step.session.writer.None?
      && step.report.CommitAnswer? && step.report.result.Ok?
      && OutcomeExact(e.call.commit, step.report.result.value)
    case Commit(CommitFailed(_, retained)) =>
      && step.handed == e.before.writer && step.session.writer == retained
      && step.report.CommitAnswer? && step.report.result.Err?
    case Abort(Aborted(_)) =>
      && step.handed.None? && step.session.writer.None?
      && step.report.AbortAnswer? && step.report.answer.Ok?
    case Abort(AbortFailed) => step == Stepped(e.before, None, AbortAnswer(Err(NativeAbortFailed)))
  }

  /** In every run a call that finds a live writer is served by it. */
  lemma CallsServed(s: Session, calls: seq<Call>, k: nat)
    requires AllWellFormed(calls) && k < |calls|
    requires Run(s, calls).log[k].before.writer.Some?
    ensures ServedLive(Run(s, calls).log[k])
  {
    hide Run;
    RunPrefix(s, calls, k);
  }

  // ---- What the reports say about the destination ----

  /** What native code said about the destination in this call, if it was asked: no failure is no publication. */
  function Fact(e: Entry): Option<AbortOutcome> {
    if e.before.writer.None? then None
    else
      match e.call
      case Commit(CommitFailed(NotPublished, _)) | Abort(Aborted(Some(NotPublished))) | Abort(Aborted(None)) =>
        Some(AbortOutcome.NotPublished)
      case Commit(Committed(_, _, _, _)) | Commit(CommitFailed(Published, _)) | Abort(Aborted(Some(Published))) =>
        Some(AbortOutcome.Published)
      case Commit(CommitFailed(Indeterminate, _)) | Abort(Aborted(Some(Indeterminate))) =>
        Some(AbortOutcome.Indeterminate)
      case _ => None
  }

  function Newest(fact: Option<AbortOutcome>, said: Option<AbortOutcome>): Option<AbortOutcome> {
    if fact.Some? then fact else said
  }

  /** The latest thing native code said. */
  function LastFact(log: seq<Entry>): Option<AbortOutcome> {
    if log == [] then None else Newest(Fact(log[|log| - 1]), LastFact(log[..|log| - 1]))
  }

  lemma LastFactSnoc(log: seq<Entry>, k: nat)
    requires k < |log|
    ensures LastFact(log[..k + 1]) == Newest(Fact(log[k]), LastFact(log[..k]))
  {
    assert log[..k + 1][..k] == log[..k];
  }

  /** What a report tells its caller about the destination. */
  function Claim(r: Report): Option<AbortOutcome> {
    match r
    case CommitAnswer(Ok(_)) => Some(AbortOutcome.Published)
    case CommitAnswer(Err(WriteFailure(_, _, Published))) => Some(AbortOutcome.Published)
    case CommitAnswer(Err(WriteFailure(_, _, Indeterminate))) => Some(AbortOutcome.Indeterminate)
    case CommitAnswer(Err(_)) => Some(AbortOutcome.NotPublished)
    case AbortAnswer(Ok(outcome)) => Some(outcome)
    case _ => None
  }

  predicate RefusedCommit(e: Entry) {
    e.call.Commit? && e.before.writer.None?
  }

  /** A session knows what was said last: it stores nothing else, and cannot be terminal before. */
  predicate Coherent(s: Session, said: Option<AbortOutcome>) {
    && Exclusive(s)
    && (s.terminal.Some? ==> s.terminal == said)
    && (s.writer.None? ==> said.Some?)
  }

  predicate TruthfulFailure(e: Entry, failure: WriteFailure) {
    && failure.kind.NativeFailure?
    && (failure.state.RetryableNotPublished? <==>
          Fact(e) == Some(AbortOutcome.NotPublished) && e.step.session.writer.Some?)
    && failure.effect == match Fact(e)
                         case Some(NotPublished) => Some(Unchanged)
                         case Some(Published) => Some(Applied)
                         case Some(Indeterminate) => Some(Effect.Indeterminate)
                         case None => None
  }

  predicate TruthfulEntry(e: Entry, said: Option<AbortOutcome>) {
    var report := e.step.report;
    && (Claim(report).Some? ==> Claim(report) == said)
    && (report.CommitAnswer? && report.result.Err? ==> TruthfulFailure(e, report.result.error))
  }

  lemma StepCoherent(s: Session, call: Call, said: Option<AbortOutcome>)
    requires WellFormed(call) && Coherent(s, said)
    ensures var e := EntryOf(s, call);
            && Coherent(e.step.session, Newest(Fact(e), said))
            && (!RefusedCommit(e) ==> TruthfulEntry(e, Newest(Fact(e), said)))
  {
  }

  lemma {:induction false} RunCoherent(s: Session, calls: seq<Call>)
    requires AllWellFormed(calls) && Live(s)
    ensures Coherent(Run(s, calls).last, LastFact(Run(s, calls).log))
    decreases |calls|
  {
    hide Step, Fact;
    if calls != [] {
      var k := |calls| - 1;
      RunPrefix(s, calls, k);
      RunCoherent(s, calls[..k]);
      LastFactSnoc(Run(s, calls).log, k);
      StepCoherent(Run(s, calls[..k]).last, calls[k], LastFact(Run(s, calls[..k]).log));
      assert Run(s, calls).log[..k + 1] == Run(s, calls).log;
    }
  }

  /**
   * In every run from a live session each claim about the destination, stored ones
   * included, is the latest thing native code said; only a refused commit is not
   * covered. A retryable failure is reported exactly while the writer is still held
   * and nothing was published, and the attached effect says what native code said.
   */
  lemma ReportsTruthful(s: Session, calls: seq<Call>, k: nat)
    requires AllWellFormed(calls) && Live(s) && k < |calls|
    requires !RefusedCommit(Run(s, calls).log[k])
    ensures var log := Run(s, calls).log;
            TruthfulEntry(log[k], LastFact(log[..k + 1]))
  {
    hide Step, Fact, TruthfulEntry;
    var log := Run(s, calls).log;
    RunPrefix(s, calls, k);
    RunCoherent(s, calls[..k]);
    LastFactSnoc(log, k);
    StepCoherent(Run(s, calls[..k]).last, calls[k], LastFact(log[..k]));
  }

  /** The first call that left no writer behind. */
  function Taker(log: seq<Entry>): (t: nat)
    ensures t <= |log| && (t < |log| ==> log[t].step.session.writer.None?)
    ensures forall i :: 0 <= i < t ==> log[i].step.session.writer.Some?
  {
    if log == [] || log[0].step.session.writer.None? then 0 else 1 + Taker(log[1..])
  }

  /** Without a writer native code is not asked; losing it, it is, and its word is reported. */
  predicate Silent(e: Entry) {
    && (e.before.writer.None? ==> Fact(e).None? && e.step.session.writer.None?)
    && (e.before.writer.Some? && e.step.session.writer.None? ==>
          Fact(e).Some? && Fact(e) == Claim(e.step.report))
  }

  lemma SilentStep(s: Session, call: Call)
    requires WellFormed(call)
    ensures Silent(EntryOf(s, call))
  {
  }

  lemma {:induction false} TakerPrefix(log: seq<Entry>, k: nat)
    requires k <= |log|
    ensures Taker(log) < k ==> Taker(log[..k]) == Taker(log)
    ensures Taker(log) >= k ==> Taker(log[..k]) == k
  {
    if k > 0 && log[0].step.session.writer.Some? {
      TakerPrefix(log[1..], k - 1);
      assert log[..k][1..] == log[1..][..k - 1];
    }
  }

  /** What native code said last is what the call that took the writer reported. */
  predicate Settled(log: seq<Entry>) {
    var t := Taker(log);
    t < |log| ==> Fact(log[t]).Some? && LastFact(log) == Fact(log[t]) == Claim(log[t].step.report)
  }

  lemma SettledSnoc(log: seq<Entry>, k: nat)
    requires k + 1 == |log| && Settled(log[..k]) && Silent(log[k])
    requires log[k].before.writer.Some? <==> Taker(log[..k]) == k
    ensures Settled(log)
    ensures log[k].step.session.writer.Some? <==> Taker(log) == |log|
  {
    hide Fact, Claim;
    TakerPrefix(log, k);
    LastFactSnoc(log, k);
    assert log[..k + 1] == log;
  }

  lemma {:induction false} RunSettled(s: Session, calls: seq<Call>)
    requires AllWellFormed(calls) && Live(s)
    ensures Settled(Run(s, calls).log)
    ensures Run(s, calls).last.writer.Some? <==> Taker(Run(s, calls).log) == |calls|
    decreases |calls|
  {
    if calls != [] {
      hide Step, Settled, Silent, Taker;
      var k := |calls| - 1;
      RunPrefix(s, calls, k);
      RunSettled(s, calls[..k]);
      SilentStep(Run(s, calls[..k]).last, calls[k]);
      SettledSnoc(Run(s, calls).log, k);
    }
  }

  /**
   * A commit refused on a terminal session answers `NotPublished` whatever happened.
   * In every run from a live session that is what native code said last exactly when
   * the call that took the writer was itself answered `NotPublished`.
   */
  lemma RefusedCommitExact(s: Session, calls: seq<Call>, k: nat)
    requires AllWellFormed(calls) && Live(s) && k < |calls|
    requires RefusedCommit(Run(s, calls).log[k])
    ensures var log := Run(s, calls).log;
            var t := Taker(log);
            && t < k
            && log[k].step.report == CommitAnswer(Err(WriteFailure(InvalidState, None, FailureState.NotPublished)))
            && (LastFact(log[..k]) == Claim(log[k].step.report) <==>
                  Claim(log[t].step.report) == Some(AbortOutcome.NotPublished))
  {
    hide Run, Taker, LastFact, Fact;
    var log := Run(s, calls).log;
    RunPrefix(s, calls, k);
    RunSettled(s, calls[..k]);
    TakerPrefix(log, k);
  }

  /** Assumed of native commits: a writer is not returned once its target is published. */
  predicate RetainedUnpublished(call: Call) {
    call.Commit? && call.commit.CommitFailed? && call.commit.retained.Some? ==> !call.commit.state.Published?
  }

  lemma ClaimAfterTaker(s: Session, calls: seq<Call>, j: nat)
    requires AllWellFormed(calls) && Live(s) && Taker(Run(s, calls).log) <= j < |calls|
    ensures var log := Run(s, calls).log;
            var claim := Claim(log[j].step.report);
            claim.Some? ==>
              || claim == Claim(log[Taker(log)].step.report)
              || (RefusedCommit(log[j]) && claim == Some(AbortOutcome.NotPublished))
  {
    hide Run, Taker, LastFact, Fact, Step;
    var log := Run(s, calls).log;
    RunPrefix(s, calls, j);
    if RefusedCommit(log[j]) {
      RefusedCommitExact(s, calls, j);
    } else {
      ReportsTruthful(s, calls, j);
      RunPrefix(s, calls, j + 1);
      RunSettled(s, calls[..j + 1]);
      TakerPrefix(log, j + 1);
    }
  }

  lemma HeldUnpublished(s: Session, call: Call)
    requires WellFormed(call) && RetainedUnpublished(call)
    requires Step(s, call).session.writer.Some?
    ensures Claim(Step(s, call).report) != Some(AbortOutcome.Published)
  {
  }

  /**
   * Assuming that of every call, some earlier report had said that the target is
   * published exactly when the answer of the call that took the writer did.
   */
  lemma RefusedCommitContradicts(s: Session, calls: seq<Call>, k: nat)
    requires AllWellFormed(calls) && Live(s) && k < |calls|
    requires forall i :: 0 <= i < |calls| ==> RetainedUnpublished(calls[i])
    requires RefusedCommit(Run(s, calls).log[k])
    ensures var log := Run(s, calls).log;
            var t := Taker(log);
            && t < k
            && ((exists j :: 0 <= j < k && Claim(log[j].step.report) == Some(AbortOutcome.Published)) <==>
                  Claim(log[t].step.report) == Some(AbortOutcome.Published))
  {
    var log := Run(s, calls).log;
    var t := Taker(log);
    RefusedCommitExact(s, calls, k);
    forall j | 0 <= j < t
      ensures Claim(log[j].step.report) != Some(AbortOutcome.Published)
    {
      RunPrefix(s, calls, j);
      HeldUnpublished(Run(s, calls[..j]).last, calls[j]);
    }
    forall j | t <= j < k
      ensures Claim(log[j].step.report) == Some(AbortOutcome.Published) ==>
                Claim(log[t].step.report) == Some(AbortOutcome.Published)
    {
      ClaimAfterTaker(s, calls, j);
    }
  }

  /**
   * The condition fails for a commit after a commit that succeeded, after one that
   * lost its writer to a published target, and after an abort that found it published.
   */
  lemma {:induction false} RefusedAfterPublication(writer: NativeWriter, retry: NativeCommit, first: Call)
    requires || first == Commit(Committed(true, AtomicRename, |writer.accepted|, true))
             || first == Commit(CommitFailed(NativeState.Published, None))
             || first == Abort(Aborted(Some(NativeState.Published)))
    ensures var log := Run(Session(Some(writer), None), [first, Commit(retry)]).log;
            && log[1].step.report == CommitAnswer(Err(REFUSED))
            && Claim(log[0].step.report) == LastFact(log[..1]) == Some(AbortOutcome.Published)
            && Claim(log[1].step.report) == Some(AbortOutcome.NotPublished)
  {
  }

  // ---- The committed bytes ----

  /** Assumed of native commits: a retained writer keeps the bytes it had accepted. */
  predicate KeepsBytes(e: Entry) {
    e.call.Commit? && e.call.commit.CommitFailed? && e.call.commit.retained.Some? ==>
      e.call.commit.retained == e.before.writer
  }

  ghost predicate AllKeepBytes(log: seq<Entry>) {
    forall i :: 0 <= i < |log| ==> KeepsBytes(log[i])
  }

  /** Assumed of native commits: a success counts the bytes of the writer it was given. */
  predicate CountsBytes(e: Entry) {
    e.call.Commit? && e.call.commit.Committed? && e.step.handed.Some? ==>
      e.call.commit.bytesWritten == |e.step.handed.value.accepted|
  }

  /** The bytes a write report says were taken; a report never names more than were given. */
  function TakenBy(call: Call, report: Report): Bytes {
    if call.Write? && report.Wrote? && report.count.Some? && report.count.value <= |call.input|
    then call.input[..report.count.value] else []
  }

  /** The bytes whose acceptance was reported to the caller, in call order. */
  function Reported(log: seq<Entry>): Bytes {
    if log == [] then []
    else Reported(log[..|log| - 1]) + TakenBy(log[|log| - 1].call, log[|log| - 1].step.report)
  }

  lemma HeldBytesStep(s: Session, call: Call)
    requires WellFormed(call) && KeepsBytes(EntryOf(s, call))
    requires Step(s, call).session.writer.Some?
    ensures s.writer.Some?
    ensures Step(s, call).session.writer.value.accepted
         == s.writer.value.accepted + TakenBy(call, Step(s, call).report)
  {
  }

  /** As long as a writer is held it holds exactly the reported bytes in order. */
  lemma {:induction false} WriterHoldsReportedBytes(s: Session, calls: seq<Call>)
    requires AllWellFormed(calls) && Live(s)
    requires AllKeepBytes(Run(s, calls).log)
    ensures var h := Run(s, calls);
            h.last.writer.Some? ==> h.last.writer.value.accepted == s.writer.value.accepted + Reported(h.log)
    decreases |calls|
  {
    if calls != [] {
      hide Run, Step, KeepsBytes, TakenBy;
      var k := |calls| - 1;
      var log := Run(s, calls).log;
      RunPrefix(s, calls, k);
      assert AllKeepBytes(log[..k]);
      assert KeepsBytes(log[k]);
      WriterHoldsReportedBytes(s, calls[..k]);
      if log[k].step.session.writer.Some? {
        HeldBytesStep(Run(s, calls[..k]).last, calls[k]);
      }
      Associate(s.writer.value.accepted, Reported(log[..k]), TakenBy(log[k].call, log[k].step.report));
    }
  }

  /**
   * A commit that succeeds publishes exactly the bytes whose acceptance was reported
   * before it, and reports their number.
   */
  lemma CommitPublishesReportedBytes(s: Session, calls: seq<Call>, k: nat)
    requires AllWellFormed(calls) && Live(s) && k < |calls|
    requires var log := Run(s, calls).log;
             && AllKeepBytes(log) && CountsBytes(log[k])
             && log[k].step.report.CommitAnswer? && log[k].step.report.result.Ok?
    ensures var log := Run(s, calls).log;
            var published := s.writer.value.accepted + Reported(log[..k]);
            && log[k].step.handed == Some(NativeWriter(published))
            && log[k].step.report.result.value.bytesWritten == |published|
  {
    var log := Run(s, calls).log;
    RunPrefix(s, calls, k);
    assert AllKeepBytes(log[..k]);
    WriterHoldsReportedBytes(s, calls[..k]);
  }

  // ---- The adapter runs these sequences ----

  /** The writers handed to native commit, in order. */
  function HandedOf(log: seq<Entry>): seq<NativeWriter> {
    if log == [] then []
    else (if log[0].step.handed.Some? then [log[0].step.handed.value] else []) + HandedOf(log[1..])
  }

  method Perform(spi: LocalFileWriterSpi, call: Call) returns (report: Report)
    requires WellFormed(call)
    modifies spi
    ensures var entry := EntryOf(old(spi.Current()), call);
            && spi.Current() == entry.step.session && report == entry.step.report
            && spi.handed == old(spi.handed) + HandedOf([entry])
  {
    match call
    case Write(input, taken) =>
      var count := spi.WriteUnchecked(input, 0, |input|, taken);
      assert input[0..0 + |input|] == input;
      return Wrote(count);
    case Flush(succeeds) =>
      var ok := spi.FlushWriter(succeeds);
      return Flushed(ok);
    case Commit(commit) =>
      var result := spi.CommitWriter(commit);
      return CommitAnswer(result);
    case Abort(abort) =>
      var answer := spi.AbortWriter(abort);
      return AbortAnswer(answer);
  }

  /** Driven by any calls, the adapter ends, reports and hands over as the run says. */
  method Replay(spi: LocalFileWriterSpi, calls: seq<Call>) returns (reports: seq<Report>)
    requires AllWellFormed(calls)
    modifies spi
    ensures var h := Run(old(spi.Current()), calls);
            && spi.Current() == h.last
            && reports == Reports(h.log)
            && spi.handed == old(spi.handed) + HandedOf(h.log)
    decreases |calls|
  {
    if calls == [] {
      return [];
    }
    ghost var entry := EntryOf(spi.Current(), calls[0]);
    var report := Perform(spi, calls[0]);
    var rest := Replay(spi, calls[1..]);
    reports := [report] + rest;
    ghost var log := Run(entry.step.session, calls[1..]).log;
    assert ([entry] + log)[1..] == log;
  }
}
