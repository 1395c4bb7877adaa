/** Listing a whole directory tree: a subtree request returns that subtree and nothing else. */
module ListingTree {
  import opened PathText
  import opened Listing

  type Paths = seq<seq<Bytes>>

  /** Entries of one directory: the first with its own entries, then its siblings. */
  datatype Forest = Empty | Node(name: Bytes, children: Forest, siblings: Forest)

  function Names(f: Forest): set<Bytes> {
    match f
    case Empty => {}
    case Node(name, _, siblings) => {name} + Names(siblings)
  }

  predicate WellNamed(f: Forest) {
    f.Node? ==>
      && Component(f.name) && f.name !in Names(f.siblings)
      && WellNamed(f.children) && WellNamed(f.siblings)
  }

  function Under(base: seq<Bytes>, paths: Paths): (r: Paths)
    ensures |r| == |paths|
  {
    if paths == [] then [] else [base + paths[0]] + Under(base, paths[1..])
  }

  /** Every entry of the tree, relative to its root, in walking order. */
  function AllPaths(f: Forest): Paths {
    match f
    case Empty => []
    case Node(name, children, siblings) => [[name]] + Under([name], AllPaths(children)) + AllPaths(siblings)
  }

  function TopLevel(f: Forest): Paths {
    match f
    case Empty => []
    case Node(name, _, siblings) => [[name]] + TopLevel(siblings)
  }

  /** The entries below the entry at `prefix`, if there is one. */
  function Descend(f: Forest, prefix: seq<Bytes>): Option<Forest>
    requires prefix != []
    decreases f
  {
    match f
    case Empty => None
    case Node(name, children, siblings) =>
      if name != prefix[0] then Descend(siblings, prefix)
      else if |prefix| == 1 then Some(children)
      else Descend(children, prefix[1..])
  }

  /** The entry at `prefix` and all its descendants. */
  function SubtreeAt(f: Forest, prefix: seq<Bytes>): Paths
    requires prefix != []
  {
    match Descend(f, prefix)
    case None => []
    case Some(below) => [prefix] + Under(prefix, AllPaths(below))
  }

  function Kept(prefix: seq<Bytes>, paths: Paths): Paths {
    if paths == [] then []
    else if prefix <= paths[0] then [paths[0]] + Kept(prefix, paths[1..])
    else Kept(prefix, paths[1..])
  }

  predicate InReach(limit: Option<nat>, path: seq<Bytes>) {
    limit.Some? ==> |path| <= limit.value
  }

  /** The entries at most so deep, those of the listed directory itself being at depth one. */
  function Within(limit: Option<nat>, paths: Paths): Paths {
    if paths == [] then []
    else if InReach(limit, paths[0]) then [paths[0]] + Within(limit, paths[1..])
    else Within(limit, paths[1..])
  }

  // ---- Filtering a tree walk ----

  lemma {:induction false} KeptConcat(prefix: seq<Bytes>, a: Paths, b: Paths)
    ensures Kept(prefix, a + b) == Kept(prefix, a) + Kept(prefix, b)
  {
    if a == [] {
      assert a + b == b;
    } else {
      KeptConcat(prefix, a[1..], b);
      assert (a + b)[1..] == a[1..] + b && (a + b)[0] == a[0];
    }
  }

  lemma {:induction false} UnderConcat(base: seq<Bytes>, a: Paths, b: Paths)
    ensures Under(base, a + b) == Under(base, a) + Under(base, b)
  {
    if a == [] {
      assert a + b == b;
    } else {
      UnderConcat(base, a[1..], b);
      assert (a + b)[1..] == a[1..] + b && (a + b)[0] == a[0];
    }
  }

  lemma {:induction false} UnderUnder(a: seq<Bytes>, b: seq<Bytes>, paths: Paths)
    ensures Under(a, Under(b, paths)) == Under(a + b, paths)
  {
    if paths != [] {
      UnderUnder(a, b, paths[1..]);
      assert Under(b, paths)[1..] == Under(b, paths[1..]);
      assert a + (b + paths[0]) == a + b + paths[0];
    }
  }

  lemma PrefixStep(prefix: seq<Bytes>, path: seq<Bytes>)
    requires prefix != [] && path != []
    ensures prefix <= path <==> prefix[0] == path[0] && prefix[1..] <= path[1..]
  {
    if prefix[0] == path[0] && prefix[1..] <= path[1..] {
      assert prefix == [prefix[0]] + prefix[1..];
      assert path == [path[0]] + path[1..];
    }
  }

  lemma {:induction false} KeptUnder(name: Bytes, prefix: seq<Bytes>, paths: Paths)
    requires prefix != []
    ensures Kept(prefix, Under([name], paths))
         == if prefix[0] != name then [] else Under([name], Kept(prefix[1..], paths))
  {
    if paths != [] {
      KeptUnder(name, prefix, paths[1..]);
      var first := [name] + paths[0];
      assert Under([name], paths)[1..] == Under([name], paths[1..]);
      assert first[1..] == paths[0];
      PrefixStep(prefix, first);
    }
  }

  lemma {:induction false} KeepAll(paths: Paths)
    ensures Kept([], paths) == paths
  {
    if paths != [] {
      KeepAll(paths[1..]);
    }
  }

  lemma KeptNode(f: Forest, prefix: seq<Bytes>)
    requires f.Node? && prefix != []
    ensures Kept(prefix, AllPaths(f))
         == Kept(prefix, [[f.name]])
            + (if prefix[0] != f.name then [] else Under([f.name], Kept(prefix[1..], AllPaths(f.children))))
            + Kept(prefix, AllPaths(f.siblings))
    ensures Kept(prefix, [[f.name]]) == if prefix == [f.name] then [[f.name]] else []
  {
    KeptConcat(prefix, [[f.name]] + Under([f.name], AllPaths(f.children)), AllPaths(f.siblings));
    KeptConcat(prefix, [[f.name]], Under([f.name], AllPaths(f.children)));
    KeptUnder(f.name, prefix, AllPaths(f.children));
    assert Kept(prefix, [[f.name]]) == if prefix <= [f.name] then [[f.name]] else [];
    PrefixStep(prefix, [f.name]);
    assert prefix == [prefix[0]] + prefix[1..];
  }

  lemma {:induction false} KeptElsewhere(f: Forest, prefix: seq<Bytes>)
    requires prefix != [] && prefix[0] !in Names(f)
    ensures Kept(prefix, AllPaths(f)) == []
  {
    match f
    case Empty =>
    case Node(name, children, siblings) =>
      KeptElsewhere(siblings, prefix);
      KeptNode(f, prefix);
  }

  lemma SubtreeOfChild(f: Forest, prefix: seq<Bytes>)
    requires f.Node? && |prefix| > 1 && prefix[0] == f.name
    ensures Under([f.name], SubtreeAt(f.children, prefix[1..])) == SubtreeAt(f, prefix)
  {
    var rest := prefix[1..];
    assert [f.name] + rest == prefix;
    match Descend(f.children, rest)
    case None =>
    case Some(below) =>
      UnderConcat([f.name], [rest], Under(rest, AllPaths(below)));
      UnderUnder([f.name], rest, AllPaths(below));
      assert Under([f.name], [rest]) == [prefix];
  }

  /** Filtering the walk of a tree by a component prefix leaves exactly that subtree. */
  lemma {:induction false} FilteredWalkIsSubtree(f: Forest, prefix: seq<Bytes>)
    requires WellNamed(f) && prefix != []
    ensures Kept(prefix, AllPaths(f)) == SubtreeAt(f, prefix)
    decreases f
  {
    if f.Node? {
      KeptNode(f, prefix);
      if prefix[0] != f.name {
        FilteredWalkIsSubtree(f.siblings, prefix);
        assert prefix != [f.name];
      } else {
        KeptElsewhere(f.siblings, prefix);
        if |prefix| == 1 {
          assert prefix == [f.name] && prefix[1..] == [];
          KeepAll(AllPaths(f.children));
        } else {
          FilteredWalkIsSubtree(f.children, prefix[1..]);
          SubtreeOfChild(f, prefix);
        }
      }
    }
  }

  lemma {:induction false} KeptCounts(prefix: seq<Bytes>, paths: Paths, p: seq<Bytes>)
    ensures multiset(Kept(prefix, paths))[p] == if prefix <= p then multiset(paths)[p] else 0
  {
    if paths != [] {
      KeptCounts(prefix, paths[1..], p);
      assert paths == [paths[0]] + paths[1..];
    }
  }

  lemma {:induction false} WithinCounts(limit: Option<nat>, paths: Paths, p: seq<Bytes>)
    ensures multiset(Within(limit, paths))[p] == if InReach(limit, p) then multiset(paths)[p] else 0
  {
    if paths != [] {
      WithinCounts(limit, paths[1..], p);
      assert paths == [paths[0]] + paths[1..];
    }
  }

  lemma SubtreeCounts(f: Forest, prefix: seq<Bytes>, limit: Option<nat>, p: seq<Bytes>)
    requires WellNamed(f) && prefix != []
    ensures multiset(Within(limit, SubtreeAt(f, prefix)))[p]
         == if prefix <= p then multiset(Within(limit, AllPaths(f)))[p] else 0
  {
    FilteredWalkIsSubtree(f, prefix);
    hide AllPaths, SubtreeAt, Kept, Within;
    KeptCounts(prefix, AllPaths(f), p);
    WithinCounts(limit, AllPaths(f), p);
    WithinCounts(limit, SubtreeAt(f, prefix), p);
  }

  /**
   * The order in which the walker meets the entries does not matter, nor that it
   * stays above a maximum depth: what it misses is all that the subtree misses.
   */
  lemma AnyWalkIsSubtree(f: Forest, prefix: seq<Bytes>, limit: Option<nat>, walk: Paths)
    requires WellNamed(f) && prefix != []
    requires multiset(walk) <= multiset(Within(limit, AllPaths(f)))
    ensures multiset(Kept(prefix, walk)) <= multiset(Within(limit, SubtreeAt(f, prefix)))
    ensures multiset(walk) == multiset(Within(limit, AllPaths(f))) ==>
              multiset(Kept(prefix, walk)) == multiset(Within(limit, SubtreeAt(f, prefix)))
  {
    hide *;
    var reach, below := Within(limit, AllPaths(f)), Within(limit, SubtreeAt(f, prefix));
    forall p
      ensures multiset(Kept(prefix, walk))[p] <= multiset(below)[p]
      ensures multiset(walk) == multiset(reach) ==> multiset(Kept(prefix, walk))[p] == multiset(below)[p]
    {
      KeptCounts(prefix, walk, p);
      SubtreeCounts(f, prefix, limit, p);
    }
  }

  lemma {:induction false} UnderCounts(base: seq<Bytes>, paths: Paths, p: seq<Bytes>)
    ensures multiset(Under(base, paths))[base + p] == multiset(paths)[p]
  {
    if paths != [] {
      UnderCounts(base, paths[1..], p);
      assert paths == [paths[0]] + paths[1..];
      assert base + paths[0] == base + p ==> (base + paths[0])[|base|..] == (base + p)[|base|..];
    }
  }

  lemma {:induction false} UnderOnly(base: seq<Bytes>, paths: Paths, p: seq<Bytes>)
    requires p in Under(base, paths)
    ensures base <= p
  {
    if p != base + paths[0] {
      UnderOnly(base, paths[1..], p);
    }
  }

  lemma {:induction false} FirstNames(f: Forest, p: seq<Bytes>)
    requires p in AllPaths(f)
    ensures p != [] && p[0] in Names(f)
  {
    if p in Under([f.name], AllPaths(f.children)) {
      UnderOnly([f.name], AllPaths(f.children), p);
    } else if p != [f.name] {
      FirstNames(f.siblings, p);
    }
  }

  lemma CountAtNode(f: Forest, p: seq<Bytes>)
    requires f.Node? && p != []
    ensures multiset(AllPaths(f))[p]
         == (if p == [f.name] then 1 else 0)
            + (if p[0] == f.name then multiset(AllPaths(f.children))[p[1..]] else 0)
            + multiset(AllPaths(f.siblings))[p]
  {
    var below, beside := Under([f.name], AllPaths(f.children)), AllPaths(f.siblings);
    assert multiset(AllPaths(f)) == multiset{[f.name]} + multiset(below) + multiset(beside);
    if p[0] == f.name {
      UnderCounts([f.name], AllPaths(f.children), p[1..]);
      assert [f.name] + p[1..] == p;
    } else if p in below {
      UnderOnly([f.name], AllPaths(f.children), p);
    }
  }

  /** A walk of a tree meets each entry once. */
  lemma {:induction false} EachEntryOnce(f: Forest, p: seq<Bytes>)
    requires WellNamed(f)
    ensures multiset(AllPaths(f))[p] <= 1
    decreases f
  {
    if p in AllPaths(f) {
      FirstNames(f, p);
      CountAtNode(f, p);
      if p[0] == f.name {
        EachEntryOnce(f.children, p[1..]);
        if p in AllPaths(f.siblings) {
          FirstNames(f.siblings, p);
        }
        if p[1..] in AllPaths(f.children) {
          FirstNames(f.children, p[1..]);
        }
      } else {
        EachEntryOnce(f.siblings, p);
      }
    }
  }

  lemma {:induction false} UnderOrdered(base: seq<Bytes>, a: Paths, b: Paths)
    requires multiset(a) <= multiset(b)
    ensures multiset(Under(base, a)) <= multiset(Under(base, b))
  {
    forall p
      ensures multiset(Under(base, a))[p] <= multiset(Under(base, b))[p]
    {
      if base <= p {
        assert p == base + p[|base|..];
        UnderCounts(base, a, p[|base|..]);
        UnderCounts(base, b, p[|base|..]);
      } else if p in Under(base, a) {
        UnderOnly(base, a, p);
      }
    }
  }

  lemma SubtreeEachOnce(f: Forest, prefix: seq<Bytes>, limit: Option<nat>, base: seq<Bytes>, p: seq<Bytes>)
    requires WellNamed(f) && prefix != []
    ensures multiset(Under(base, Within(limit, SubtreeAt(f, prefix))))[p] <= 1
  {
    var below := Within(limit, SubtreeAt(f, prefix));
    if p in Under(base, below) {
      UnderOnly(base, below, p);
      var rest := p[|base|..];
      assert p == base + rest;
      UnderCounts(base, below, rest);
      WithinCounts(limit, SubtreeAt(f, prefix), rest);
      FilteredWalkIsSubtree(f, prefix);
      KeptCounts(prefix, AllPaths(f), rest);
      EachEntryOnce(f, rest);
    }
  }

  // ---- What a stream shows of any walk ----

  /** The components of the entry below the requested root, where they have a logical form. */
  function NamesOf(item: WalkItem, o: Listed): Option<seq<Bytes>> {
    if item.Entry? then o.mapper.relative(item.relative) else None
  }

  function EntryNames(items: seq<WalkItem>, o: Listed): Paths {
    if items == [] then []
    else
      var names := NamesOf(items[0], o);
      (if names.Some? then [names.value] else []) + EntryNames(items[1..], o)
  }

  predicate Matching(item: WalkItem, o: Listed) {
    NamesOf(item, o).Some? && Matches(o.filter, LogicalPath(true, NamesOf(item, o).value))
  }

  /** An entry whose full path can be expressed. */
  predicate Expressible(item: WalkItem, o: Listed)
    requires NamesOf(item, o).Some?
  {
    match o.relativeRoot
    case Some(root) => o.mapper.fits(root + NamesOf(item, o).value)
    case None => o.mapper.absolute(item.path).Some?
  }

  /** The components of the matching entries whose full path can be expressed. */
  function Visible(items: seq<WalkItem>, o: Listed): Paths {
    if items == [] then []
    else
      (if Matching(items[0], o) && Expressible(items[0], o) then [NamesOf(items[0], o).value] else [])
      + Visible(items[1..], o)
  }

  /** An entry without a logical name, or a match without a logical path. */
  predicate Failing(item: WalkItem, o: Listed) {
    item.Entry? && (NamesOf(item, o).None? || (Matching(item, o) && !Expressible(item, o)))
  }

  /** One error for each walk error and each failing entry. */
  function ItemErrors(items: seq<WalkItem>, o: Listed): seq<StreamError> {
    if items == [] then []
    else
      (if items[0].WalkError? then [WalkFailed(items[0].code)]
       else if Failing(items[0], o) then [InvalidPath]
       else [])
      + ItemErrors(items[1..], o)
  }

  type Seen = seq<Result<DirEntry, StreamError>>

  function SeenPaths(seen: Seen): Paths {
    if seen == [] then []
    else (if seen[0].Ok? then [seen[0].value.path.components] else []) + SeenPaths(seen[1..])
  }

  function SeenErrors(seen: Seen): seq<StreamError> {
    if seen == [] then []
    else (if seen[0].Err? then [seen[0].error] else []) + SeenErrors(seen[1..])
  }

  ghost predicate AllAbsolute(seen: Seen, absolute: bool) {
    forall i :: 0 <= i < |seen| ==> seen[i].Ok? ==> seen[i].value.path.absolute == absolute
  }

  predicate Compositional(item: WalkItem, mapper: Mapper, root: seq<Bytes>) {
    item.Entry? && mapper.relative(item.relative).Some? && mapper.absolute(item.path).Some? ==>
      mapper.absolute(item.path).value == root + mapper.relative(item.relative).value
  }

  /**
   * A relative request is projected onto its own root by the adapter. For an absolute
   * one the path conversion is assumed to be compositional: the full path of an entry
   * is the root's components followed by those of its relative path.
   */
  ghost predicate ListsUnder(items: seq<WalkItem>, o: Listed, root: seq<Bytes>) {
    match o.relativeRoot
    case Some(relative) => relative == root
    case None => forall i :: 0 <= i < |items| ==> Compositional(items[i], o.mapper, root)
  }

  lemma SeenStep(items: seq<WalkItem>, o: Listed)
    requires items != []
    ensures var first := Project(items[0], o);
            var seen, rest := FilterMap(items, o), FilterMap(items[1..], o);
            && SeenPaths(seen) == (if first.Some? && first.value.Ok? then [first.value.value.path.components] else [])
                                  + SeenPaths(rest)
            && SeenErrors(seen) == (if first.Some? && first.value.Err? then [first.value.error] else [])
                                   + SeenErrors(rest)
  {
  }

  lemma ProjectExact(item: WalkItem, o: Listed, root: seq<Bytes>)
    requires match o.relativeRoot
             case Some(relative) => relative == root
             case None => Compositional(item, o.mapper, root)
    ensures var seen := Project(item, o);
            && (seen.Some? && seen.value.Ok? <==> Matching(item, o) && Expressible(item, o))
            && (seen.Some? && seen.value.Ok? ==>
                  seen.value.value.path == LogicalPath(o.relativeRoot.None?, root + NamesOf(item, o).value))
            && (seen.Some? && seen.value.Err? <==> item.WalkError? || Failing(item, o))
            && (seen.Some? && seen.value.Err? ==>
                  seen.value.error == if item.WalkError? then WalkFailed(item.code) else InvalidPath)
  {
    hide Matches;
  }

  lemma UnderFirst(root: seq<Bytes>, items: seq<WalkItem>, o: Listed)
    requires items != []
    ensures Under(root, Visible(items, o))
         == (if Matching(items[0], o) && Expressible(items[0], o) then [root + NamesOf(items[0], o).value] else [])
            + Under(root, Visible(items[1..], o))
  {
    var all, rest := Visible(items, o), Visible(items[1..], o);
    if Matching(items[0], o) && Expressible(items[0], o) {
      assert all[1..] == rest;
    } else {
      assert all == rest;
    }
  }

  /**
   * Over any walk, failing ones included, every visible path is the requested root
   * followed by the entry's own components, absolute exactly when the request was,
   * and every error is kept, in number and order.
   */
  lemma {:induction false} SeenUnderRoot(items: seq<WalkItem>, o: Listed, root: seq<Bytes>)
    requires ListsUnder(items, o, root)
    ensures var seen := FilterMap(items, o);
            && SeenPaths(seen) == Under(root, Visible(items, o))
            && AllAbsolute(seen, o.relativeRoot.None?)
            && SeenErrors(seen) == ItemErrors(items, o)
  {
    if items != [] {
      hide Project, Matching, Expressible, Compositional, Under, Visible, SeenPaths, SeenErrors;
      assert o.relativeRoot.None? ==> Compositional(items[0], o.mapper, root);
      ProjectExact(items[0], o, root);
      SeenUnderRoot(items[1..], o, root);
      SeenStep(items, o);
      UnderFirst(root, items, o);
    }
  }

  /** The kind shown for each visible entry, and its metadata when they are asked for. */
  function ShownFacts(items: seq<WalkItem>, o: Listed): seq<(nat, Option<Metadata>)> {
    if items == [] then []
    else
      (if Matching(items[0], o) && Expressible(items[0], o)
       then [(items[0].metadata.kind, if o.includeMetadata then Some(items[0].metadata) else None)] else [])
      + ShownFacts(items[1..], o)
  }

  function SeenFacts(seen: Seen): seq<(nat, Option<Metadata>)> {
    if seen == [] then []
    else (if seen[0].Ok? then [(seen[0].value.kind, seen[0].value.metadata)] else []) + SeenFacts(seen[1..])
  }

  /** Every visible entry has the kind of its own item, and metadata exactly when they were asked for. */
  lemma {:induction false} SeenFactsExact(items: seq<WalkItem>, o: Listed)
    ensures SeenFacts(FilterMap(items, o)) == ShownFacts(items, o)
  {
    if items != [] {
      hide Matches;
      SeenFactsExact(items[1..], o);
    }
  }

  // ---- Listing without a filter ----

  /** The components of every entry whose full path can be expressed. */
  function Expressibles(items: seq<WalkItem>, o: Listed): Paths {
    if items == [] then []
    else
      (if NamesOf(items[0], o).Some? && Expressible(items[0], o) then [NamesOf(items[0], o).value] else [])
      + Expressibles(items[1..], o)
  }

  lemma {:induction false} UnfilteredVisible(items: seq<WalkItem>, o: Listed)
    requires o.filter == None
    ensures Visible(items, o) == Expressibles(items, o)
    ensures multiset(Expressibles(items, o)) <= multiset(EntryNames(items, o))
    ensures ItemErrors(items, o) == [] ==> Expressibles(items, o) == EntryNames(items, o)
  {
    if items != [] {
      var names := NamesOf(items[0], o);
      OtherFilters(if names.Some? then names.value else [], []);
      hide Matches, Expressible;
      UnfilteredVisible(items[1..], o);
    }
  }

  /** Without a filter every entry is shown: the root followed by its components, or an error. */
  lemma SeenUnfiltered(items: seq<WalkItem>, o: Listed, root: seq<Bytes>)
    requires ListsUnder(items, o, root) && o.filter == None
    ensures SeenPaths(FilterMap(items, o)) == Under(root, Expressibles(items, o))
  {
    SeenUnderRoot(items, o, root);
    UnfilteredVisible(items, o);
  }

  // ---- The request, end to end ----

  ghost predicate AllNamed(paths: Paths) {
    forall i :: 0 <= i < |paths| ==> paths[i] != [] && Components(paths[i])
  }

  lemma KeptFirst(items: seq<WalkItem>, o: Listed, prefix: seq<Bytes>)
    requires items != []
    requires prefix != [] && Components(prefix) && o.filter == Some(Subtree(Join(prefix)))
    requires AllNamed(EntryNames(items, o))
    ensures AllNamed(EntryNames(items[1..], o))
    ensures var rest := Kept(prefix, EntryNames(items[1..], o));
            Kept(prefix, EntryNames(items, o))
              == if Matching(items[0], o) then [NamesOf(items[0], o).value] + rest else rest
  {
    hide Matches, Components, Join;
    var names, all, rest := NamesOf(items[0], o), EntryNames(items, o), EntryNames(items[1..], o);
    if names.None? {
      assert all == rest;
    } else {
      assert all[0] == names.value && all[1..] == rest;
      SubtreeIsComponentPrefix(names.value, prefix);
    }
  }

  /** With a subtree filter the visible entries are those below the prefix, but for errors. */
  lemma {:induction false} VisibleKept(items: seq<WalkItem>, o: Listed, prefix: seq<Bytes>)
    requires prefix != [] && Components(prefix) && o.filter == Some(Subtree(Join(prefix)))
    requires AllNamed(EntryNames(items, o))
    ensures multiset(Visible(items, o)) <= multiset(Kept(prefix, EntryNames(items, o)))
    ensures ItemErrors(items, o) == [] ==> Visible(items, o) == Kept(prefix, EntryNames(items, o))
  {
    if items != [] {
      hide Matching, Expressible, NamesOf, Kept, EntryNames, AllNamed, Components, Join;
      KeptFirst(items, o, prefix);
      VisibleKept(items[1..], o, prefix);
    }
  }

  lemma {:induction false} UnderNamed(name: Bytes, paths: Paths)
    requires Component(name) && AllNamed(paths)
    ensures AllNamed(Under([name], paths))
  {
    if paths != [] {
      UnderNamed(name, paths[1..]);
    }
  }

  lemma {:induction false} TreeNamed(f: Forest)
    requires WellNamed(f)
    ensures AllNamed(AllPaths(f)) && AllNamed(TopLevel(f))
  {
    if f.Node? {
      TreeNamed(f.children);
      TreeNamed(f.siblings);
      UnderNamed(f.name, AllPaths(f.children));
    }
  }

  /**
   * What is assumed of the native walker: it meets entries of the tree only, each at
   * most once and none below the maximum depth, and unless an entry cap or an error
   * stops it, it meets all of those. Where it meets errors is left open.
   */
  ghost predicate WalksTree(f: Forest, native: NativeListOptions, items: seq<WalkItem>, o: Listed) {
    var reach := Within(native.maxDepth, if native.recursive then AllPaths(f) else TopLevel(f));
    && multiset(EntryNames(items, o)) <= multiset(reach)
    && (native.maxEntries.None? && ItemErrors(items, o) == [] ==>
          multiset(EntryNames(items, o)) == multiset(reach))
  }

  lemma WalkNamed(f: Forest, native: NativeListOptions, items: seq<WalkItem>, o: Listed)
    requires WellNamed(f) && native.recursive && WalksTree(f, native, items, o)
    ensures AllNamed(EntryNames(items, o))
  {
    TreeNamed(f);
    var walk := EntryNames(items, o);
    forall i | 0 <= i < |walk|
      ensures walk[i] != [] && Components(walk[i])
    {
      assert walk[i] in multiset(walk);
      WithinCounts(native.maxDepth, AllPaths(f), walk[i]);
      assert walk[i] in AllPaths(f);
    }
  }

  lemma SubtreeSeen(
    f: Forest, native: NativeListOptions, items: seq<WalkItem>, o: Listed, root: seq<Bytes>, prefix: seq<Bytes>)
    requires WellNamed(f) && prefix != [] && Components(prefix)
    requires o.filter == Some(Subtree(Join(prefix)))
    requires ListsUnder(items, o, root) && WalksTree(f, native, items, o)
    requires native.recursive && native.maxEntries.None?
    ensures var seen := FilterMap(items, o);
            var subtree := Under(root, Within(native.maxDepth, SubtreeAt(f, prefix)));
            && AllAbsolute(seen, o.relativeRoot.None?)
            && multiset(SeenPaths(seen)) <= multiset(subtree)
            && (SeenErrors(seen) == [] ==> multiset(SeenPaths(seen)) == multiset(subtree))
  {
    var walk, subtree := EntryNames(items, o), Within(native.maxDepth, SubtreeAt(f, prefix));
    SeenUnderRoot(items, o, root);
    WalkNamed(f, native, items, o);
    VisibleKept(items, o, prefix);
    AnyWalkIsSubtree(f, prefix, native.maxDepth, walk);
    UnderOrdered(root, Visible(items, o), subtree);
    if ItemErrors(items, o) == [] {
      UnderOrdered(root, subtree, Visible(items, o));
    }
  }

  /**
   * A subtree request, recursive or not and whatever entry cap it carries, returns
   * only the entry at the prefix and its descendants down to the maximum depth, each
   * at most once and every one under the requested root. If the stream shows no
   * error, it returns all of them.
   */
  method ListSubtree(
    request: ListRequest, scope: Scope, defaults: Defaults, walk: NativeListOptions -> seq<WalkItem>, o: Listed,
    ghost f: Forest, ghost root: seq<Bytes>, ghost prefix: seq<Bytes>)
    returns (seen: Option<Seen>)
    requires WellNamed(f) && prefix != [] && Components(prefix)
    requires request.filter == Some(Subtree(Join(prefix))) && o.filter == request.filter
    requires forall native :: ListsUnder(walk(native), o, root) && WalksTree(f, native, walk(native), o)
    ensures seen.None? <==> request.symlinkOverride == Some(Unsupported)
    ensures seen.Some? ==>
              var subtree := Under(root, Within(request.maxDepth, SubtreeAt(f, prefix)));
              && AllAbsolute(seen.value, o.relativeRoot.None?)
              && multiset(SeenPaths(seen.value)) <= multiset(subtree)
              && (SeenErrors(seen.value) == [] ==> multiset(SeenPaths(seen.value)) == multiset(subtree))
              && forall p :: multiset(SeenPaths(seen.value))[p] <= 1
  {
    hide Components, Join, Within, Under, SubtreeAt, WellNamed, ListsUnder, WalksTree, FilterMap, SeenPaths, SeenErrors;
    var native := ListOptions(request, scope, defaults);
    if native.None? {
      return None;
    }
    var items := walk(native.value);
    SubtreeSeen(f, native.value, items, o, root, prefix);
    var stream := new LocalDirectoryStreamSpi(items, o);
    var all := stream.Drain();
    forall p
      ensures multiset(SeenPaths(all))[p] <= 1
    {
      SubtreeEachOnce(f, prefix, request.maxDepth, root, p);
    }
    return Some(all);
  }

  lemma {:induction false} TopLevelWithin(f: Forest)
    ensures multiset(TopLevel(f)) <= multiset(AllPaths(f))
  {
    if f.Node? {
      TopLevelWithin(f.siblings);
      var below := Under([f.name], AllPaths(f.children));
      assert multiset(AllPaths(f)) == multiset{[f.name]} + multiset(below) + multiset(AllPaths(f.siblings));
      assert multiset(TopLevel(f)) == multiset{[f.name]} + multiset(TopLevel(f.siblings));
    }
  }

  lemma ReachEachOnce(f: Forest, recursive: bool, limit: Option<nat>, base: seq<Bytes>, p: seq<Bytes>)
    requires WellNamed(f)
    ensures multiset(Under(base, Within(limit, if recursive then AllPaths(f) else TopLevel(f))))[p] <= 1
  {
    var all := if recursive then AllPaths(f) else TopLevel(f);
    if p in Under(base, Within(limit, all)) {
      UnderOnly(base, Within(limit, all), p);
      var rest := p[|base|..];
      assert p == base + rest;
      UnderCounts(base, Within(limit, all), rest);
      WithinCounts(limit, all, rest);
      EachEntryOnce(f, rest);
      TopLevelWithin(f);
    }
  }

  /**
   * A request without a filter returns the whole tree if it is recursive and the top
   * level if it is not, down to the maximum depth: nothing else, each entry at most
   * once, and all of it when no entry cap was asked for and the stream shows no error.
   */
  method ListDirectory(
    request: ListRequest, scope: Scope, defaults: Defaults, walk: NativeListOptions -> seq<WalkItem>, o: Listed,
    ghost f: Forest, ghost root: seq<Bytes>)
    returns (seen: Option<Seen>)
    requires WellNamed(f) && request.filter == None && o.filter == None
    requires forall native :: ListsUnder(walk(native), o, root) && WalksTree(f, native, walk(native), o)
    ensures seen.None? <==> request.symlinkOverride == Some(Unsupported)
    ensures seen.Some? ==>
              var all := Under(root, Within(request.maxDepth, if request.recursive then AllPaths(f) else TopLevel(f)));
              && AllAbsolute(seen.value, o.relativeRoot.None?)
              && multiset(SeenPaths(seen.value)) <= multiset(all)
              && (request.maxEntries.None? && SeenErrors(seen.value) == [] ==>
                    multiset(SeenPaths(seen.value)) == multiset(all))
              && forall p :: multiset(SeenPaths(seen.value))[p] <= 1
  {
    hide Within, Under, WellNamed, AllPaths, TopLevel, FilterMap, SeenPaths, SeenErrors, ItemErrors;
    var native := ListOptions(request, scope, defaults);
    if native.None? {
      return None;
    }
    var items := walk(native.value);
    ghost var reach := Within(request.maxDepth, if request.recursive then AllPaths(f) else TopLevel(f));
    SeenUnderRoot(items, o, root);
    UnfilteredVisible(items, o);
    UnderOrdered(root, Visible(items, o), reach);
    if request.maxEntries.None? && ItemErrors(items, o) == [] {
      UnderOrdered(root, reach, Visible(items, o));
    }
    var stream := new LocalDirectoryStreamSpi(items, o);
    var all := stream.Drain();
    forall p
      ensures multiset(SeenPaths(all))[p] <= 1
    {
      ReachEachOnce(f, request.recursive, request.maxDepth, root, p);
    }
    return Some(all);
  }
}
