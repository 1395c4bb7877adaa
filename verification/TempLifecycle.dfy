/**
 * The lifecycle adapter of one native temporary resource. Native calls answer
 * through parameters; the class methods are tied to the step functions before them.
 */
module TempLifecycle {
  import opened PathText
  import opened CleanupControl

  // ---- States and reports ----

  datatype Source = Owned | Released | Indeterminate | CleanupRequired

  datatype Publication = NotPublished | Published | Indeterminate

  datatype PersistState =
    | NotPublished
    | NotPublishedSourceReleased
    | NotPublishedSourceIndeterminate
    | NotPublishedSourceCleanupRequired
    | PublishedSourceRetained
    | PublishedSourceReleased
    | PublishedSourceIndeterminate
    | Indeterminate

  datatype Effect = Unchanged | PartiallyApplied | Applied | Indeterminate

  datatype Reason =
    | NoLongerOwned        // rejected before target conversion
    | Terminal             // the slot was empty when native publication was due
    | TargetUnmapped       // the logical target has no native form
    | NativeFailure
    | TargetUnexpressible  // a native keep target has no logical form

  datatype PersistFailure = PersistFailure(
    reason: Reason, effect: Option<Effect>, state: PersistState, target: Option<Bytes>)

  datatype PersistOutcome = PersistOutcome(target: Bytes, facts: Facts)

  /** Atomicity, method and residual state of a completed publication. */
  datatype Facts = Facts(atomic: bool, atomicRename: bool, cleanupComplete: bool)

  datatype CleanupFailure =
    | CleanupTerminal
    | SourceUncertain(effect: Effect)
    | NotADirectory
    | CleanupNativeFailure

  // ---- The native resource and its answers ----

  datatype NativeTemp = NativeTemp(source: Source, limits: NativeLimits)

  datatype NativePublish =
    | Completed(path: Bytes, facts: Facts)
    | Failed(publication: Publication, source: Source, returned: NativeTemp, resolvedTarget: Option<Bytes>)

  datatype NativeCleanup =
    | Removed(returned: NativeTemp)
    | NotRemoved(returned: NativeTemp, invalidPath: bool, effect: Option<Effect>)

  /** Path conversion through the creating authority and the requested parent. */
  datatype Authority = Authority(toNative: Bytes -> Option<Bytes>, toLogical: Bytes -> Option<Bytes>)

  datatype Kind = File | Directory

  // ---- Pure state tables ----

  function PersistFailureState(publication: Publication, source: Source): PersistState {
    match (publication, source)
    case (NotPublished, Owned) => PersistState.NotPublished
    case (NotPublished, Released) => NotPublishedSourceReleased
    case (NotPublished, Indeterminate) => NotPublishedSourceIndeterminate
    case (NotPublished, CleanupRequired) => NotPublishedSourceCleanupRequired
    case (Published, CleanupRequired) => PublishedSourceRetained
    case (Published, Released) => PublishedSourceReleased
    case (Published, Indeterminate) => PublishedSourceIndeterminate
    case _ => PersistState.Indeterminate
  }

  function PersistEffectState(state: PersistState): Effect {
    match state
    case NotPublished | NotPublishedSourceReleased | NotPublishedSourceIndeterminate
       | NotPublishedSourceCleanupRequired => Unchanged
    case PublishedSourceRetained | PublishedSourceReleased | PublishedSourceIndeterminate => Applied
    case Indeterminate => Effect.Indeterminate
  }

  /** The source authority a failure state claims, if it claims one. */
  function SourcePart(state: PersistState): Option<Source> {
    match state
    case NotPublished => Some(Owned)
    case NotPublishedSourceReleased | PublishedSourceReleased => Some(Released)
    case NotPublishedSourceIndeterminate | PublishedSourceIndeterminate => Some(Source.Indeterminate)
    case NotPublishedSourceCleanupRequired | PublishedSourceRetained => Some(CleanupRequired)
    case Indeterminate => None
  }

  predicate PublishedState(state: PersistState) {
    state.PublishedSourceRetained? || state.PublishedSourceReleased? || state.PublishedSourceIndeterminate?
  }

  /**
   * The state table loses nothing but the publications it cannot place: an unknown
   * publication, and the contradictory published-but-owned pair.
   */
  lemma StateTableFaithful(publication: Publication, source: Source)
    ensures var state := PersistFailureState(publication, source);
            && (state.Indeterminate? <==> publication.Indeterminate? || (publication.Published? && source.Owned?))
            && (!state.Indeterminate? ==> SourcePart(state) == Some(source))
            && (!state.Indeterminate? ==> (PublishedState(state) <==> publication.Published?))
            && PersistEffectState(state) == (if state.Indeterminate? then Effect.Indeterminate
                                             else if publication.Published? then Applied
                                             else Unchanged)
  {
  }

  // ---- Steps on the slot ----

  function AuthorityOf(slot: Option<NativeTemp>): Source {
    if slot.Some? then slot.value.source else Released
  }

  predicate Owns(slot: Option<NativeTemp>) {
    AuthorityOf(slot).Owned?
  }

  /** A native call as it was made: the resource handed over and the native target. */
  datatype Attempt =
    | PersistAttempt(value: NativeTemp, target: Bytes)
    | KeepAttempt(value: NativeTemp)
    | CleanupAttempt(value: NativeTemp)

  /** The slot, the native call if one was made, and the answer. */
  datatype Publishing = Publishing(
    slot: Option<NativeTemp>, attempt: Option<Attempt>, answer: Result<PersistOutcome, PersistFailure>)

  datatype Cleaning = Cleaning(slot: Option<NativeTemp>, attempt: Option<Attempt>, failure: Option<CleanupFailure>)

  /** Only a live directory with a control takes over the control's current limits. */
  function Refreshed(slot: Option<NativeTemp>, kind: Kind, control: Option<Option<Limits>>): Option<NativeTemp> {
    if slot.Some? && kind.Directory? && control.Some? then Some(slot.value.(limits := Native(control.value)))
    else slot
  }

  function Rejection(source: Source): PersistFailure {
    var state := PersistFailureState(Publication.NotPublished, source);
    PersistFailure(NoLongerOwned, Some(PersistEffectState(state)), state, None)
  }

  function TerminalFailure(): PersistFailure {
    PersistFailure(Terminal, None, NotPublishedSourceReleased, None)
  }

  function NativeFailureReport(publish: NativePublish, reason: Reason, target: Option<Bytes>): PersistFailure
    requires publish.Failed?
  {
    var state := PersistFailureState(publish.publication, publish.source);
    PersistFailure(reason, Some(PersistEffectState(state)), state, target)
  }

  function PersistStep(
    slot: Option<NativeTemp>, target: Bytes, authority: Authority, publish: NativePublish): Publishing
  {
    if !Owns(slot) then Publishing(slot, None, Err(Rejection(AuthorityOf(slot))))
    else if authority.toNative(target).None? then
      Publishing(slot, None, Err(PersistFailure(TargetUnmapped, None, PersistState.NotPublished, None)))
    else
      var attempt := Some(PersistAttempt(slot.value, authority.toNative(target).value));
      match publish
      case Completed(_, facts) => Publishing(None, attempt, Ok(PersistOutcome(target, facts)))
      case Failed(_, _, returned, _) =>
        Publishing(Some(returned), attempt, Err(NativeFailureReport(publish, NativeFailure, Some(target))))
  }

  /** Only a resolved target with a logical form is attached to a keep failure. */
  function KeepFailureReport(publish: NativePublish, authority: Authority, resolved: Option<Bytes>): PersistFailure
    requires publish.Failed?
  {
    if resolved.None? then NativeFailureReport(publish, NativeFailure, None)
    else
      match authority.toLogical(resolved.value)
      case Some(target) => NativeFailureReport(publish, NativeFailure, Some(target))
      case None => NativeFailureReport(publish, TargetUnexpressible, None)
  }

  function KeepStep(slot: Option<NativeTemp>, authority: Authority, publish: NativePublish): Publishing {
    if !Owns(slot) then Publishing(slot, None, Err(Rejection(AuthorityOf(slot))))
    else
      var attempt := Some(KeepAttempt(slot.value));
      match publish
      case Completed(path, facts) =>
        (match authority.toLogical(path)
         case Some(target) => Publishing(None, attempt, Ok(PersistOutcome(target, facts)))
         case None =>
           var failure := PersistFailure(TargetUnexpressible, Some(Applied), PublishedSourceReleased, None);
           Publishing(None, attempt, Err(failure)))
      case Failed(_, _, returned, resolved) =>
        Publishing(Some(returned), attempt, Err(KeepFailureReport(publish, authority, resolved)))
  }

  function CleanupEffect(effect: Option<Effect>): Effect {
    match effect
    case None | Some(Unchanged) => Unchanged
    case Some(PartiallyApplied) => PartiallyApplied
    case Some(Applied) => Applied
    case Some(Indeterminate) => Effect.Indeterminate
  }

  function CleanupFailureReport(kind: Kind, cleanup: NativeCleanup): CleanupFailure
    requires cleanup.NotRemoved?
  {
    if cleanup.returned.source.Indeterminate? then SourceUncertain(CleanupEffect(cleanup.effect))
    else if kind.Directory? && cleanup.invalidPath then NotADirectory
    else CleanupNativeFailure
  }

  function CleanupStep(slot: Option<NativeTemp>, kind: Kind, cleanup: NativeCleanup): Cleaning {
    if slot.None? then Cleaning(slot, None, Some(CleanupTerminal))
    else
      var attempt := Some(CleanupAttempt(slot.value));
      match cleanup
      case Removed(returned) => Cleaning(Some(returned), attempt, None)
      case NotRemoved(returned, _, _) =>
        Cleaning(Some(returned), attempt, Some(CleanupFailureReport(kind, cleanup)))
  }

  // ---- The adapter ----

  class LocalTempResourceSpi {
    var resource: Option<NativeTemp>
    const kind: Kind
    const authority: Authority
    const control: LocalTempCleanupControl?
    /** Every native publication or cleanup call made so far. */
    ghost var attempts: seq<Attempt>

    constructor FromFile(value: NativeTemp, authority: Authority)
      ensures resource == Some(value) && kind == File && control == null && attempts == []
      ensures this.authority == authority
    {
      resource, kind, this.authority, control, attempts := Some(value), File, authority, null, [];
    }

    constructor FromDirectory(value: NativeTemp, authority: Authority, control: LocalTempCleanupControl?)
      ensures resource == Some(value) && kind == Directory && this.control == control && attempts == []
      ensures this.authority == authority
    {
      resource, kind, this.authority, this.control, attempts := Some(value), Directory, authority, control, [];
    }

    /** The value the shared control holds now, for a resource that has one. */
    ghost function ControlValue(): Option<Option<Limits>>
      reads this, control
    {
      if control == null then None else Some(control.current)
    }

    ghost function Log(attempt: Option<Attempt>): seq<Attempt> {
      if attempt.Some? then [attempt.value] else []
    }

    method RefreshDirectoryCleanupLimits()
      modifies this`resource
      ensures resource == Refreshed(old(resource), kind, old(ControlValue()))
    {
      if resource.None? || kind.File? || control == null {
        return;
      }
      var limits := control.Limits();
      resource := Some(resource.value.(limits := Native(limits)));
    }

    method RequireOwned() returns (rejected: Option<PersistFailure>)
      ensures rejected == if Owns(resource) then None else Some(Rejection(AuthorityOf(resource)))
    {
      var source := match resource case Some(value) => value.source case None => Released;
      if source == Owned {
        return None;
      }
      var state := PersistFailureState(Publication.NotPublished, source);
      return Some(PersistFailure(NoLongerOwned, Some(PersistEffectState(state)), state, None));
    }

    method Target(target: Bytes) returns (r: Result<Bytes, PersistFailure>)
      ensures r == if !Owns(resource) then Err(Rejection(AuthorityOf(resource)))
                   else if authority.toNative(target).None?
                        then Err(PersistFailure(TargetUnmapped, None, PersistState.NotPublished, None))
                   else Ok(authority.toNative(target).value)
    {
      var rejected := RequireOwned();
      if rejected.Some? {
        return Err(rejected.value);
      }
      var native := authority.toNative(target);
      if native.None? {
        return Err(PersistFailure(TargetUnmapped, None, PersistState.NotPublished, None));
      }
      return Ok(native.value);
    }

    /** Takes the resource out of the slot and puts it back after a failure. */
    method PersistNative(native: Bytes, target: Bytes, publish: NativePublish)
      returns (r: Result<Facts, PersistFailure>)
      modifies this`resource, this`attempts
      ensures old(resource).None? ==>
                r == Err(TerminalFailure()) && resource == None && attempts == old(attempts)
      ensures old(resource).Some? ==>
                && attempts == old(attempts) + [PersistAttempt(old(resource).value, native)]
                && (publish.Completed? ==> r == Ok(publish.facts) && resource == None)
                && (publish.Failed? ==>
                      && r == Err(NativeFailureReport(publish, NativeFailure, Some(target)))
                      && resource == Some(publish.returned))
    {
      var taken := resource;
      resource := None;
      if taken.None? {
        return Err(TerminalFailure());
      }
      attempts := attempts + [PersistAttempt(taken.value, native)];
      match publish
      case Completed(_, facts) =>
        return Ok(facts);
      case Failed(publication, source, returned, _) =>
        resource := Some(returned);
        var state := PersistFailureState(publication, source);
        return Err(PersistFailure(NativeFailure, Some(PersistEffectState(state)), state, Some(target)));
    }

    method KeepNative(publish: NativePublish) returns (r: Result<PersistOutcome, PersistFailure>)
      modifies this`resource, this`attempts
      ensures old(resource).None? ==>
                r == Err(TerminalFailure()) && resource == None && attempts == old(attempts)
      ensures old(resource).Some? && Owns(old(resource)) ==>
                var step := KeepStep(old(resource), authority, publish);
                r == step.answer && resource == step.slot && attempts == old(attempts) + Log(step.attempt)
    {
      var taken := resource;
      resource := None;
      if taken.None? {
        return Err(TerminalFailure());
      }
      attempts := attempts + [KeepAttempt(taken.value)];
      match publish
      case Completed(path, facts) =>
        var target := authority.toLogical(path);
        if target.None? {
          return Err(PersistFailure(TargetUnexpressible, Some(Applied), PublishedSourceReleased, None));
        }
        return Ok(PersistOutcome(target.value, facts));
      case Failed(publication, source, returned, resolved) =>
        resource := Some(returned);
        var state := PersistFailureState(publication, source);
        var reason, target := NativeFailure, None;
        if resolved.Some? {
          target := authority.toLogical(resolved.value);
          if target.None? {
            reason := TargetUnexpressible;
          }
        }
        return Err(PersistFailure(reason, Some(PersistEffectState(state)), state, target));
    }

    method Persist(target: Bytes, publish: NativePublish) returns (r: Result<PersistOutcome, PersistFailure>)
      modifies this`resource, this`attempts
      ensures var step := PersistStep(Refreshed(old(resource), kind, old(ControlValue())), target, authority, publish);
              r == step.answer && resource == step.slot && attempts == old(attempts) + Log(step.attempt)
    {
      RefreshDirectoryCleanupLimits();
      var native := Target(target);
      if native.Err? {
        return Err(native.error);
      }
      var result := PersistNative(native.value, target, publish);
      if result.Err? {
        return Err(result.error);
      }
      return Ok(PersistOutcome(target, result.value));
    }

    method Keep(publish: NativePublish) returns (r: Result<PersistOutcome, PersistFailure>)
      modifies this`resource, this`attempts
      ensures var step := KeepStep(Refreshed(old(resource), kind, old(ControlValue())), authority, publish);
              r == step.answer && resource == step.slot && attempts == old(attempts) + Log(step.attempt)
    {
      RefreshDirectoryCleanupLimits();
      var rejected := RequireOwned();
      if rejected.Some? {
        return Err(rejected.value);
      }
      r := KeepNative(publish);
    }

    method Cleanup(cleanup: NativeCleanup) returns (failure: Option<CleanupFailure>)
      modifies this`resource, this`attempts
      ensures var step := CleanupStep(Refreshed(old(resource), kind, old(ControlValue())), kind, cleanup);
              failure == step.failure && resource == step.slot && attempts == old(attempts) + Log(step.attempt)
    {
      RefreshDirectoryCleanupLimits();
      if resource.None? {
        return Some(CleanupTerminal);
      }
      attempts := attempts + [CleanupAttempt(resource.value)];
      resource := Some(cleanup.returned);
      match cleanup
      case Removed(_) =>
        return None;
      case NotRemoved(returned, invalidPath, effect) =>
        if kind.Directory? && !returned.source.Indeterminate? && invalidPath {
          return Some(NotADirectory);
        }
        if returned.source.Indeterminate? {
          return Some(SourceUncertain(CleanupEffect(effect)));
        }
        return Some(CleanupNativeFailure);
    }

    /** The limits are read once more before native destruction runs. */
    method Drop()
      modifies this`resource
      ensures resource == Refreshed(old(resource), kind, old(ControlValue()))
    {
      RefreshDirectoryCleanupLimits();
    }
  }
}
