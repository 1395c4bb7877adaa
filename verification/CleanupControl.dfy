/** The shared, replaceable cleanup limits of associated temporary directories. */
module CleanupControl {
  import opened PathText

  datatype Limits = Limits(maxDepth: nat, maxEntries: nat, maxPendingPathBytes: nat, deadline: nat)

  /** Native cleanup limits; a missing ceiling does not bound the attempt. */
  datatype NativeLimits = NativeLimits(
    maxDepth: Option<nat>, maxEntries: Option<nat>, maxPendingPathBytes: Option<nat>, deadline: Option<nat>)

  /** `None` selects the native default, which bounds nothing. */
  function Native(limits: Option<Limits>): NativeLimits {
    match limits
    case None => NativeLimits(None, None, None, None)
    case Some(l) =>
      NativeLimits(Some(l.maxDepth), Some(l.maxEntries), Some(l.maxPendingPathBytes), Some(l.deadline))
  }

  /** Each limit bounds its own measure and nothing else; no limits bound nothing. */
  lemma NativeExact(limits: Option<Limits>)
    ensures var native := Native(limits);
            && native.maxDepth == (if limits.Some? then Some(limits.value.maxDepth) else None)
            && native.maxEntries == (if limits.Some? then Some(limits.value.maxEntries) else None)
            && native.maxPendingPathBytes
                 == (if limits.Some? then Some(limits.value.maxPendingPathBytes) else None)
            && native.deadline == (if limits.Some? then Some(limits.value.deadline) else None)
  {
  }

  /** One locked cell; every clone of a control is another reference to it. */
  class LocalTempCleanupControl {
    var current: Option<Limits>

    constructor (limits: Option<Limits>)
      ensures current == limits
    {
      current := limits;
    }

    method Clone() returns (shared: LocalTempCleanupControl)
      ensures shared == this
    {
      shared := this;
    }

    method Limits() returns (limits: Option<Limits>)
      ensures limits == current
    {
      limits := current;
    }

    method SetLimits(limits: Option<Limits>)
      modifies this
      ensures current == limits
    {
      current := limits;
    }
  }

  // ---- Handles of one control ----

  datatype HandleUse =
    | CloneHandle(handle: nat)
    | SetHandle(handle: nat, limits: Option<Limits>)
    | ReadHandle(handle: nat)

  /**
   * What the reads of a script answer when `value` is in force and `count` handles
   * exist: the last value set through any of them. Other indices name nothing.
   */
  function Answers(value: Option<Limits>, count: nat, uses: seq<HandleUse>): seq<Option<Limits>>
    decreases |uses|
  {
    if uses == [] then []
    else if uses[0].handle >= count then Answers(value, count, uses[1..])
    else
      match uses[0]
      case CloneHandle(_) => Answers(value, count + 1, uses[1..])
      case SetHandle(_, limits) => Answers(limits, count, uses[1..])
      case ReadHandle(_) => [value] + Answers(value, count, uses[1..])
  }

  lemma {:induction false} ReadAfterClones(value: Option<Limits>, count: nat, clones: seq<HandleUse>, read: nat)
    requires read < count && forall i :: 0 <= i < |clones| ==> clones[i].CloneHandle?
    ensures Answers(value, count, clones + [ReadHandle(read)]) == [value]
    decreases |clones|
  {
    var uses := clones + [ReadHandle(read)];
    if clones == [] {
      assert uses[1..] == [];
    } else {
      assert uses[1..] == clones[1..] + [ReadHandle(read)];
      ReadAfterClones(value, if clones[0].handle < count then count + 1 else count, clones[1..], read);
    }
  }

  /** A read after a set answers the set value, whichever handles they go through. */
  lemma {:induction false} ReadAfterSet(
    value: Option<Limits>, count: nat, limits: Option<Limits>, between: seq<HandleUse>, setter: nat, reader: nat)
    requires setter < count && reader < count
    requires forall i :: 0 <= i < |between| ==> between[i].CloneHandle?
    ensures Answers(value, count, [SetHandle(setter, limits)] + between + [ReadHandle(reader)]) == [limits]
  {
    var uses := [SetHandle(setter, limits)] + between + [ReadHandle(reader)];
    assert uses[1..] == between + [ReadHandle(reader)];
    ReadAfterClones(limits, count, between, reader);
  }

  /** However handles are cloned from handles, each of them sets and reads the one value. */
  method UseHandles(control: LocalTempCleanupControl, uses: seq<HandleUse>)
    returns (answers: seq<Option<Limits>>)
    modifies control
    ensures answers == Answers(old(control.current), 1, uses)
  {
    var handles := [control];
    answers := [];
    for i := 0 to |uses|
      invariant |handles| >= 1 && forall h :: h in handles ==> h == control
      invariant answers + Answers(control.current, |handles|, uses[i..]) == Answers(old(control.current), 1, uses)
    {
      var use := uses[i];
      assert uses[i..][1..] == uses[i + 1..];
      if use.handle < |handles| {
        var handle := handles[use.handle];
        assert handle in handles;
        match use
        case CloneHandle(_) =>
          var clone := handle.Clone();
          handles := handles + [clone];
        case SetHandle(_, limits) =>
          handle.SetLimits(limits);
        case ReadHandle(_) =>
          var limits := handle.Limits();
          answers := answers + [limits];
      }
    }
  }
}
