/** Directory listing: option mapping, the prefix filter, and the lazy filtering stream. */
module Listing {
  import opened PathText

  // ---- Logical paths ----

  predicate Component(c: Bytes) {
    c != [] && SLASH !in c
  }

  predicate Components(cs: seq<Bytes>) {
    forall i :: 0 <= i < |cs| ==> Component(cs[i])
  }

  datatype LogicalPath = LogicalPath(absolute: bool, components: seq<Bytes>)

  function AsText(path: LogicalPath): Bytes {
    (if path.absolute then [SLASH] else []) + Join(path.components)
  }

  // ---- The filter ----

  datatype ListFilter = Subtree(prefix: Bytes) | LiteralPrefix(prefix: Bytes)

  function StripPrefix(text: Bytes, prefix: Bytes): (rest: Option<Bytes>)
    ensures rest.Some? <==> prefix <= text
    ensures rest.Some? ==> text == prefix + rest.value
  {
    if prefix <= text then Some(text[|prefix|..]) else None
  }

  function RelativeText(relative: LogicalPath): Bytes {
    var stripped := StripPrefix(AsText(relative), [SLASH]);
    if stripped.Some? then stripped.value else []
  }

  /** The text test of the adapter: equal, or continued by a slash. */
  predicate Matches(filter: Option<ListFilter>, relative: LogicalPath) {
    match filter
    case None => true
    case Some(Subtree(prefix)) =>
      var text := RelativeText(relative);
      var remaining := StripPrefix(text, prefix);
      text == prefix || (remaining.Some? && [SLASH] <= remaining.value)
    case Some(LiteralPrefix(prefix)) => prefix <= RelativeText(relative)
  }

  /** Putting a byte before a list of components commutes with appending others. */
  lemma GrowFirst(head: Byte, parts: seq<Bytes>, more: seq<Bytes>)
    requires parts != []
    ensures [[head] + (parts + more)[0]] + (parts + more)[1..] == [[head] + parts[0]] + parts[1..] + more
    ensures [[]] + (parts + more) == [[]] + parts + more
  {
  }

  lemma {:induction false} SplitConcat(a: Bytes, b: Bytes)
    ensures Split(a + [SLASH] + b) == Split(a) + Split(b)
  {
    var text := a + [SLASH] + b;
    if a == [] {
      assert text[1..] == b;
    } else {
      assert text[1..] == a[1..] + [SLASH] + b && text[0] == a[0];
      SplitConcat(a[1..], b);
      GrowFirst(a[0], Split(a[1..]), Split(b));
    }
  }

  lemma {:induction false} JoinConcat(a: seq<Bytes>, b: seq<Bytes>)
    requires a != [] && b != []
    ensures Join(a + b) == Join(a) + [SLASH] + Join(b)
  {
    if |a| == 1 {
      assert (a + b)[1..] == b;
    } else {
      JoinConcat(a[1..], b);
      assert (a + b)[1..] == a[1..] + b;
    }
  }

  lemma RelativeTextIsJoin(names: seq<Bytes>)
    ensures RelativeText(LogicalPath(true, names)) == Join(names)
  {
    assert AsText(LogicalPath(true, names))[1..] == Join(names);
  }

  lemma MatchIsRun(names: seq<Bytes>, prefix: Bytes)
    requires names != [] && Components(names)
    requires Matches(Some(Subtree(prefix)), LogicalPath(true, names))
    ensures exists k :: 0 < k <= |names| && prefix == Join(names[..k])
  {
    var text := Join(names);
    RelativeTextIsJoin(names);
    SplitJoin(names);
    var k := |names|;
    if text == prefix {
      assert names[..k] == names;
    } else {
      var rest := StripPrefix(text, prefix).value[1..];
      assert text == prefix + [SLASH] + rest;
      SplitConcat(prefix, rest);
      JoinSplit(prefix);
      k := |Split(prefix)|;
      assert names[..k] == Split(prefix);
    }
    assert 0 < k <= |names| && prefix == Join(names[..k]);
  }

  lemma RunMatches(names: seq<Bytes>, k: nat)
    requires names != [] && 0 < k <= |names|
    ensures Matches(Some(Subtree(Join(names[..k]))), LogicalPath(true, names))
  {
    var text, prefix := Join(names), Join(names[..k]);
    RelativeTextIsJoin(names);
    if k < |names| {
      var tail := Join(names[k..]);
      JoinConcat(names[..k], names[k..]);
      assert names == names[..k] + names[k..];
      assert text == prefix + [SLASH] + tail;
      assert StripPrefix(text, prefix).value == [SLASH] + tail;
    } else {
      assert names[..k] == names;
    }
  }

  /**
   * For every prefix text, canonical or not: a non-empty relative path matches
   * exactly when the prefix spells a non-empty run of its leading components.
   */
  lemma SubtreeTextExact(names: seq<Bytes>, prefix: Bytes)
    requires names != [] && Components(names)
    ensures Matches(Some(Subtree(prefix)), LogicalPath(true, names))
       <==> exists k :: 0 < k <= |names| && prefix == Join(names[..k])
  {
    if Matches(Some(Subtree(prefix)), LogicalPath(true, names)) {
      MatchIsRun(names, prefix);
    }
    if k :| 0 < k <= |names| && prefix == Join(names[..k]) {
      RunMatches(names, k);
    }
  }

  /** On canonical non-empty prefixes the text test is the component-prefix test. */
  lemma SubtreeIsComponentPrefix(names: seq<Bytes>, prefix: seq<Bytes>)
    requires names != [] && Components(names)
    requires prefix != [] && Components(prefix)
    ensures Matches(Some(Subtree(Join(prefix))), LogicalPath(true, names)) <==> prefix <= names
  {
    SubtreeTextExact(names, Join(prefix));
    SplitJoin(prefix);
    forall k | 0 < k <= |names| && Join(prefix) == Join(names[..k])
      ensures prefix == names[..k]
    {
      SplitJoin(names[..k]);
    }
    if prefix <= names {
      assert names[..|prefix|] == prefix;
    }
  }

  /** Without a filter everything matches; a literal prefix is one of the text itself. */
  lemma OtherFilters(names: seq<Bytes>, prefix: Bytes)
    ensures Matches(None, LogicalPath(true, names))
    ensures Matches(Some(LiteralPrefix(prefix)), LogicalPath(true, names)) <==> prefix <= Join(names)
  {
    RelativeTextIsJoin(names);
  }

  // ---- Options handed to the native walker ----

  datatype Scope = Host | Rooted

  datatype SymlinkPolicy = Reject | FollowWithinFileSystem | Unsupported

  datatype NativeSymlinkPolicy = Reject | FollowAcrossScope | FollowWithinScope

  datatype ListRequest = ListRequest(
    recursive: bool, filter: Option<ListFilter>, symlinkOverride: Option<SymlinkPolicy>,
    maxDepth: Option<nat>, maxEntries: Option<nat>, deadline: Option<nat>)

  datatype Defaults = Defaults(reopenPolicy: nat, errorPolicy: nat)

  datatype NativeListOptions = NativeListOptions(
    recursive: bool, symlinkPolicy: Option<NativeSymlinkPolicy>, maxDepth: Option<nat>,
    maxEntries: Option<nat>, deadline: Option<nat>, reopenPolicy: nat, errorPolicy: nat)

  function NativeSymlink(policy: SymlinkPolicy, scope: Scope): Option<NativeSymlinkPolicy> {
    match policy
    case Reject => Some(NativeSymlinkPolicy.Reject)
    case FollowWithinFileSystem => Some(if scope.Host? then FollowAcrossScope else FollowWithinScope)
    case Unsupported => None
  }

  /** `None` is the `RequirementNotMet` error; the provider's own ceilings come later. */
  method ListOptions(request: ListRequest, scope: Scope, defaults: Defaults)
    returns (r: Option<NativeListOptions>)
    ensures r.None? <==>
              || (request.filter.Some? && request.filter.value.LiteralPrefix?)
              || request.symlinkOverride == Some(Unsupported)
    ensures r.Some? ==>
              var native := r.value;
              && (native.recursive <==> request.recursive || request.filter.Some?)
              && native.maxEntries == (if request.filter.Some? then None else request.maxEntries)
              && native.maxDepth == request.maxDepth && native.deadline == request.deadline
              && native.reopenPolicy == defaults.reopenPolicy && native.errorPolicy == defaults.errorPolicy
              && native.symlinkPolicy == (match request.symlinkOverride
                                          case None | Some(Unsupported) => None
                                          case Some(Reject) => Some(NativeSymlinkPolicy.Reject)
                                          case Some(FollowWithinFileSystem) =>
                                            Some(if scope.Host? then FollowAcrossScope else FollowWithinScope))
  {
    var native := NativeListOptions(false, None, None, None, None, 0, 0);
    native := native.(reopenPolicy := defaults.reopenPolicy);
    native := native.(errorPolicy := defaults.errorPolicy);
    var filter := request.filter;
    if request.recursive || (filter.Some? && filter.value.Subtree?) {
      native := native.(recursive := true);
    }
    if filter.Some? && filter.value.LiteralPrefix? {
      return None;
    }
    if request.symlinkOverride.Some? {
      var policy := NativeSymlink(request.symlinkOverride.value, scope);
      if policy.None? {
        return None;
      }
      native := native.(symlinkPolicy := policy);
    }
    if request.maxDepth.Some? {
      native := native.(maxDepth := request.maxDepth);
    }
    if filter.None? && request.maxEntries.Some? {
      native := native.(maxEntries := request.maxEntries);
    }
    if request.deadline.Some? {
      native := native.(deadline := request.deadline);
    }
    return Some(native);
  }

  // ---- The stream ----

  datatype Metadata = Metadata(kind: nat, size: nat)

  /** What the native walker yields: native component lists, or a walk error. */
  datatype WalkItem =
    | Entry(relative: seq<Bytes>, path: seq<Bytes>, metadata: Metadata)
    | WalkError(code: nat)

  datatype DirEntry = DirEntry(path: LogicalPath, kind: nat, metadata: Option<Metadata>)

  datatype StreamError = WalkFailed(code: nat) | InvalidPath

  /** Conversion of native component lists to canonical ones, where it exists. */
  datatype Mapper = Mapper(
    relative: seq<Bytes> -> Option<seq<Bytes>>,
    absolute: seq<Bytes> -> Option<seq<Bytes>>,
    fits: seq<Bytes> -> bool)

  datatype Listed = Listed(
    filter: Option<ListFilter>, includeMetadata: bool, mapper: Mapper, relativeRoot: Option<seq<Bytes>>)

  function EntryPath(item: WalkItem, names: seq<Bytes>, o: Listed): Option<LogicalPath>
    requires item.Entry?
  {
    match o.relativeRoot
    case Some(root) => if o.mapper.fits(root + names) then Some(LogicalPath(false, root + names)) else None
    case None =>
      match o.mapper.absolute(item.path)
      case None => None
      case Some(components) => Some(LogicalPath(true, components))
  }

  /** What the caller sees of one walker item; `None` when the filter drops it. */
  function Project(item: WalkItem, o: Listed): Option<Result<DirEntry, StreamError>> {
    match item
    case WalkError(code) => Some(Err(WalkFailed(code)))
    case Entry(relative, _, metadata) =>
      match o.mapper.relative(relative)
      case None => Some(Err(InvalidPath))
      case Some(names) =>
        if !Matches(o.filter, LogicalPath(true, names)) then None
        else
          match EntryPath(item, names, o)
          case None => Some(Err(InvalidPath))
          case Some(path) =>
            Some(Ok(DirEntry(path, metadata.kind, if o.includeMetadata then Some(metadata) else None)))
  }

  /** The walker's items with the dropped ones left out. */
  function FilterMap(items: seq<WalkItem>, o: Listed): seq<Result<DirEntry, StreamError>> {
    if items == [] then []
    else
      var rest := FilterMap(items[1..], o);
      match Project(items[0], o)
      case None => rest
      case Some(seen) => [seen] + rest
  }

  function Answer(seen: Result<DirEntry, StreamError>): Result<Option<DirEntry>, StreamError> {
    match seen
    case Ok(entry) => Ok(Some(entry))
    case Err(error) => Err(error)
  }

  function Unanswer(next: Result<Option<DirEntry>, StreamError>): Result<DirEntry, StreamError>
    requires next != Ok(None)
  {
    match next
    case Ok(Some(entry)) => Ok(entry)
    case Err(error) => Err(error)
  }

  lemma MoveFirst<T>(a: seq<T>, b: seq<T>)
    requires b != []
    ensures a + b == a + [b[0]] + b[1..]
  {
  }

  class LocalDirectoryStreamSpi {
    /** What the owned lazy walker has not yielded yet. */
    var walker: seq<WalkItem>
    const options: Listed

    constructor (walker: seq<WalkItem>, options: Listed)
      ensures this.walker == walker && this.options == options
    {
      this.walker, this.options := walker, options;
    }

    method WalkerNext() returns (item: Option<WalkItem>)
      modifies this`walker
      ensures old(walker) == [] ==> item == None && walker == []
      ensures old(walker) != [] ==> item == Some(old(walker)[0]) && walker == old(walker)[1..]
    {
      if walker == [] {
        return None;
      }
      item := Some(walker[0]);
      walker := walker[1..];
    }

    /**
     * The next visible item. The walker advances past it and past everything the
     * filter dropped before it, and no further.
     */
    method NextEntry() returns (r: Result<Option<DirEntry>, StreamError>)
      modifies this`walker
      ensures FilterMap(old(walker), options) == [] ==> r == Ok(None) && walker == []
      ensures FilterMap(old(walker), options) != [] ==>
                && |walker| < |old(walker)|
                && FilterMap(walker, options) == FilterMap(old(walker), options)[1..]
                && r == Answer(FilterMap(old(walker), options)[0])
    {
      while true
        invariant FilterMap(walker, options) == FilterMap(old(walker), options)
        invariant |walker| <= |old(walker)|
        decreases |walker|
      {
        var next := WalkerNext();
        if next.None? {
          return Ok(None);
        }
        match next.value
        case WalkError(code) =>
          return Err(WalkFailed(code));
        case Entry(relative, nativePath, metadata) =>
          var names := options.mapper.relative(relative);
          if names.None? {
            return Err(InvalidPath);
          }
          if !Matches(options.filter, LogicalPath(true, names.value)) {
            continue;
          }
          var path := EntryPath(next.value, names.value, options);
          if path.None? {
            return Err(InvalidPath);
          }
          var seen := if options.includeMetadata then Some(metadata) else None;
          return Ok(Some(DirEntry(path.value, metadata.kind, seen)));
      }
    }

    /** Calling until exhaustion sees exactly the filtered and mapped items, in order. */
    method Drain() returns (seen: seq<Result<DirEntry, StreamError>>)
      modifies this`walker
      ensures seen == FilterMap(old(walker), options) && walker == []
    {
      ghost var all := FilterMap(walker, options);
      seen := [];
      while true
        invariant seen + FilterMap(walker, options) == all
        decreases |walker|
      {
        ghost var rest := FilterMap(walker, options);
        var next := NextEntry();
        if next == Ok(None) {
          assert seen + [] == seen;
          return;
        }
        var item := Unanswer(next);
        assert item == rest[0];
        MoveFirst(seen, rest);
        seen := seen + [item];
      }
    }
  }
}
