/** The generic URI syntax of section 3 of RFC 3986, read as its Appendix B prescribes. */
module UriSyntax {
  import opened PathText

  datatype UriParts = UriParts(
    scheme: Option<Bytes>, authority: Option<Bytes>, path: Bytes, query: Option<Bytes>, fragment: Option<Bytes>)

  function Ascii(s: string): (bytes: Bytes)
    requires forall i :: 0 <= i < |s| ==> s[i] < 128 as char
    ensures |bytes| == |s| && forall i :: 0 <= i < |s| ==> bytes[i] == s[i] as int
  {
    seq(|s|, i requires 0 <= i < |s| => s[i] as int)
  }

  const FILE_SCHEME: Bytes := Ascii("file")

  const FILE_PREFIX: Bytes := Ascii("file://")

  /** Length of the longest prefix without any of the delimiters. */
  function Span(s: Bytes, delimiters: Bytes): (n: nat)
    ensures n <= |s|
    ensures forall i :: 0 <= i < n ==> s[i] !in delimiters
    ensures n < |s| ==> s[n] in delimiters
  {
    if s == [] || s[0] in delimiters then 0 else 1 + Span(s[1..], delimiters)
  }

  function Fragment(s: Bytes): Option<Bytes> {
    if s == [] then None else Some(s[1..])
  }

  function ParsePath(scheme: Option<Bytes>, authority: Option<Bytes>, s: Bytes): UriParts {
    var k := Span(s, Ascii("?#"));
    var rest := s[k..];
    if rest != [] && rest[0] == '?' as int then
      var m := Span(rest[1..], Ascii("#"));
      UriParts(scheme, authority, s[..k], Some(rest[1..][..m]), Fragment(rest[1..][m..]))
    else UriParts(scheme, authority, s[..k], None, Fragment(rest))
  }

  function ParseHierarchy(scheme: Option<Bytes>, s: Bytes): UriParts {
    if |s| >= 2 && s[..2] == Ascii("//") then
      var k := Span(s[2..], Ascii("/?#"));
      ParsePath(scheme, Some(s[2..][..k]), s[2..][k..])
    else ParsePath(scheme, None, s)
  }

  function ParseUri(text: Bytes): UriParts {
    var k := Span(text, Ascii(":/?#"));
    if 0 < k < |text| && text[k] == ':' as int then ParseHierarchy(Some(text[..k]), text[k + 1..])
    else ParseHierarchy(None, text)
  }

  // ---- Parts and text determine each other ----

  function AfterQuery(parts: UriParts): Bytes {
    if parts.fragment.Some? then ['#' as int] + parts.fragment.value else []
  }

  function AfterPath(parts: UriParts): Bytes {
    (if parts.query.Some? then ['?' as int] + parts.query.value else []) + AfterQuery(parts)
  }

  function AfterAuthority(parts: UriParts): Bytes {
    parts.path + AfterPath(parts)
  }

  function AfterScheme(parts: UriParts): Bytes {
    (if parts.authority.Some? then ['/' as int, '/' as int] + parts.authority.value else []) + AfterAuthority(parts)
  }

  /** Recomposition as section 5.3 of RFC 3986 prescribes. */
  function Recompose(parts: UriParts): Bytes {
    (if parts.scheme.Some? then parts.scheme.value + [':' as int] else []) + AfterScheme(parts)
  }

  predicate FreeOf(s: Bytes, delimiters: Bytes) {
    forall i :: 0 <= i < |s| ==> s[i] !in delimiters
  }

  /** A colon after a non-empty stretch without other delimiters would end a scheme. */
  predicate SchemeEnds(s: Bytes, k: int) {
    0 < k < |s| && s[k] == ':' as int && FreeOf(s[..k], Ascii(":/?#"))
  }

  predicate SeparatedPath(parts: UriParts) {
    && FreeOf(parts.path, Ascii("?#"))
    && (parts.query.Some? ==> FreeOf(parts.query.value, Ascii("#")))
  }

  predicate SeparatedHierarchy(parts: UriParts) {
    && SeparatedPath(parts)
    && (parts.authority.Some? ==>
          && FreeOf(parts.authority.value, Ascii("/?#"))
          && (parts.path != [] ==> parts.path[0] == '/' as int))
    && (parts.authority.None? ==> !([SLASH, SLASH] <= parts.path))
  }

  /** No part holds a mark that would end it, and no missing part could be read in. */
  ghost predicate Separated(parts: UriParts) {
    && SeparatedHierarchy(parts)
    && (parts.scheme.Some? ==> parts.scheme.value != [] && FreeOf(parts.scheme.value, Ascii(":/?#")))
    && (parts.scheme.None? && parts.authority.None? ==> forall k :: !SchemeEnds(parts.path, k))
  }

  lemma Marks(b: Byte)
    ensures b in Ascii(":/?#") <==> b == ':' as int || b == '/' as int || b == '?' as int || b == '#' as int
    ensures b in Ascii("/?#") <==> b == '/' as int || b == '?' as int || b == '#' as int
    ensures b in Ascii("?#") <==> b == '?' as int || b == '#' as int
    ensures b in Ascii("#") <==> b == '#' as int
  {
    var a4, a3, a2, a1 := Ascii(":/?#"), Ascii("/?#"), Ascii("?#"), Ascii("#");
    assert a4 == [':' as int] + a3 && a3 == ['/' as int] + a2 && a2 == ['?' as int] + a1 && a1 == ['#' as int];
  }

  lemma DoubleSlash(s: Bytes)
    ensures Ascii("//") == [SLASH, SLASH]
    ensures [SLASH, SLASH] <= s <==> |s| >= 2 && s[..2] == Ascii("//")
  {
  }

  /** The span ends exactly where a stretch without delimiters meets one, or the text ends. */
  lemma SpanExact(front: Bytes, rest: Bytes, delimiters: Bytes)
    requires FreeOf(front, delimiters) && (rest == [] || rest[0] in delimiters)
    ensures Span(front + rest, delimiters) == |front|
    ensures (front + rest)[..|front|] == front && (front + rest)[|front|..] == rest
  {
    var s := front + rest;
    assert forall i :: 0 <= i < |front| ==> s[i] == front[i];
    assert rest != [] ==> s[|front|] == rest[0];
  }

  lemma ParsePathExact(parts: UriParts)
    requires SeparatedPath(parts)
    ensures ParsePath(parts.scheme, parts.authority, AfterAuthority(parts)) == parts
  {
    hide Ascii, Span;
    var after, tail := AfterPath(parts), AfterQuery(parts);
    Marks('?' as int);
    Marks('#' as int);
    SpanExact(parts.path, after, Ascii("?#"));
    if parts.query.Some? {
      assert after[1..] == parts.query.value + tail;
      SpanExact(parts.query.value, tail, Ascii("#"));
    } else {
      assert after == tail;
    }
    assert parts.fragment.Some? ==> tail[1..] == parts.fragment.value;
  }

  lemma AuthorityEnds(parts: UriParts)
    requires SeparatedHierarchy(parts) && parts.authority.Some?
    ensures var rest := AfterAuthority(parts);
            rest == [] || rest[0] in Ascii("/?#")
  {
    hide Ascii, FreeOf;
    var rest := AfterAuthority(parts);
    if rest != [] {
      Marks(rest[0]);
    }
  }

  lemma NoDoubleSlash(parts: UriParts)
    requires SeparatedHierarchy(parts) && parts.authority.None?
    ensures !([SLASH, SLASH] <= AfterAuthority(parts))
  {
    hide Ascii, FreeOf;
    var s, after := AfterAuthority(parts), AfterPath(parts);
    assert s == parts.path + after;
    assert |parts.path| >= 2 ==> s[..2] == parts.path[..2];
    assert after != [] ==> s[|parts.path|] == after[0] && after[0] != SLASH;
  }

  lemma ParseHierarchyExact(parts: UriParts)
    requires SeparatedHierarchy(parts)
    ensures ParseHierarchy(parts.scheme, AfterScheme(parts)) == parts
  {
    var s, rest := AfterScheme(parts), AfterAuthority(parts);
    ParsePathExact(parts);
    hide ParsePath, Ascii, Span, FreeOf;
    DoubleSlash(s);
    if parts.authority.Some? {
      AuthorityEnds(parts);
      assert s[..2] == [SLASH, SLASH] && s[2..] == parts.authority.value + rest;
      SpanExact(parts.authority.value, rest, Ascii("/?#"));
    } else {
      assert s == rest;
      NoDoubleSlash(parts);
    }
  }

  lemma SchemeEndsWithin(parts: UriParts, k: nat)
    requires SeparatedPath(parts) && parts.authority.None? && SchemeEnds(AfterScheme(parts), k)
    ensures SchemeEnds(parts.path, k)
  {
    hide Ascii;
    var text, n, after := AfterScheme(parts), |parts.path|, AfterPath(parts);
    assert text == parts.path + after;
    if after != [] {
      Marks(after[0]);
      assert text[n] == after[0];
    }
    forall i | 0 <= i < k
      ensures text[i] !in Ascii(":/?#")
    {
      assert text[..k][i] == text[i];
    }
    assert k < n;
    assert parts.path[..k] == text[..k];
  }

  lemma NoSchemeRead(parts: UriParts)
    requires Separated(parts) && parts.scheme.None?
    ensures var text := AfterScheme(parts);
            var k := Span(text, Ascii(":/?#"));
            !(0 < k < |text| && text[k] == ':' as int)
  {
    var text := AfterScheme(parts);
    var k := Span(text, Ascii(":/?#"));
    if parts.authority.Some? {
      Marks(text[0]);
    } else if 0 < k < |text| && text[k] == ':' as int {
      assert SchemeEnds(text, k);
      SchemeEndsWithin(parts, k);
    }
  }

  lemma SchemeRead(scheme: Bytes, rest: Bytes)
    requires scheme != [] && FreeOf(scheme, Ascii(":/?#"))
    ensures ParseUri(scheme + [':' as int] + rest) == ParseHierarchy(Some(scheme), rest)
  {
    hide ParseHierarchy, Ascii, Span, FreeOf;
    var text, after := scheme + [':' as int] + rest, [':' as int] + rest;
    Marks(':' as int);
    Associate(scheme, [':' as int], rest);
    SpanExact(scheme, after, Ascii(":/?#"));
    assert text[|scheme|] == after[0];
    assert text[|scheme| + 1..] == rest;
  }

  /** Recomposed parts are read back as they are. */
  lemma ParseOfRecomposed(parts: UriParts)
    requires Separated(parts)
    ensures ParseUri(Recompose(parts)) == parts
  {
    var rest := AfterScheme(parts);
    ParseHierarchyExact(parts);
    hide ParseHierarchy, Ascii, Span, FreeOf, AfterScheme, SeparatedHierarchy;
    if parts.scheme.Some? {
      SchemeRead(parts.scheme.value, rest);
    } else {
      assert Recompose(parts) == rest;
      NoSchemeRead(parts);
    }
  }

  lemma SpanFree(s: Bytes, delimiters: Bytes)
    ensures FreeOf(s[..Span(s, delimiters)], delimiters)
  {
  }

  lemma FragmentParts(s: Bytes)
    requires s != [] ==> s[0] == '#' as int
    ensures s == if Fragment(s).Some? then ['#' as int] + Fragment(s).value else []
  {
  }

  lemma QueryParts(s: Bytes)
    requires s != [] && s[0] == '?' as int
    ensures var m := Span(s[1..], Ascii("#"));
            var query, after := s[1..][..m], s[1..][m..];
            && s == ['?' as int] + query + after
            && FreeOf(query, Ascii("#")) && (after != [] ==> after[0] == '#' as int)
  {
    hide Ascii, Span;
    var tail := s[1..];
    var m := Span(tail, Ascii("#"));
    if m < |tail| {
      Marks(tail[m]);
    }
    assert s == ['?' as int] + tail && tail == tail[..m] + tail[m..];
    Associate(['?' as int], tail[..m], tail[m..]);
  }

  /** Where the path ends: at nothing, at a fragment, or at a query. */
  lemma PathEnds(s: Bytes)
    ensures var k := Span(s, Ascii("?#"));
            && FreeOf(s[..k], Ascii("?#")) && s == s[..k] + s[k..]
            && (s[k..] != [] ==> s[k] == '?' as int || s[k] == '#' as int)
  {
    hide Ascii, Span;
    var k := Span(s, Ascii("?#"));
    SpanFree(s, Ascii("?#"));
    if k < |s| {
      Marks(s[k]);
    }
  }

  lemma PartsAfterPath(parts: UriParts, rest: Bytes)
    requires parts.query.None? ==>
               (rest != [] ==> rest[0] == '#' as int) && parts.fragment == Fragment(rest)
    requires parts.query.Some? ==>
               && rest != [] && rest[0] == '?' as int
               && var m := Span(rest[1..], Ascii("#"));
                  parts.query.value == rest[1..][..m] && parts.fragment == Fragment(rest[1..][m..])
    ensures AfterPath(parts) == rest
    ensures parts.query.Some? ==> FreeOf(parts.query.value, Ascii("#"))
  {
    hide Ascii, Span, FreeOf, Fragment;
    if parts.query.Some? {
      QueryParts(rest);
      FragmentParts(rest[1..][Span(rest[1..], Ascii("#"))..]);
    } else {
      FragmentParts(rest);
      assert [] + rest == rest;
    }
  }

  lemma ParsePathParts(scheme: Option<Bytes>, authority: Option<Bytes>, s: Bytes)
    ensures var parts := ParsePath(scheme, authority, s);
            && parts.scheme == scheme && parts.authority == authority
            && AfterAuthority(parts) == s && SeparatedPath(parts)
  {
    hide Ascii, Span, FreeOf, Fragment, AfterPath;
    PathEnds(s);
    PartsAfterPath(ParsePath(scheme, authority, s), s[Span(s, Ascii("?#"))..]);
  }

  lemma PathStart(parts: UriParts, tail: Bytes, k: nat)
    requires k <= |tail| && AfterAuthority(parts) == tail[k..] && SeparatedPath(parts) && parts.path != []
    requires k < |tail| ==> tail[k] in Ascii("/?#")
    ensures parts.path[0] == SLASH
  {
    hide Ascii;
    assert tail[k] == tail[k..][0] == parts.path[0];
    Marks(tail[k]);
  }

  lemma ParseHierarchyParts(scheme: Option<Bytes>, s: Bytes)
    ensures var parts := ParseHierarchy(scheme, s);
            parts.scheme == scheme && AfterScheme(parts) == s && SeparatedHierarchy(parts)
  {
    hide ParsePath, Ascii, Span, FreeOf, AfterPath;
    DoubleSlash(s);
    if |s| >= 2 && s[..2] == Ascii("//") {
      var tail := s[2..];
      var k := Span(tail, Ascii("/?#"));
      ParsePathParts(scheme, Some(tail[..k]), tail[k..]);
      var parts := ParsePath(scheme, Some(tail[..k]), tail[k..]);
      Associate(['/' as int, '/' as int], tail[..k], tail[k..]);
      assert s == ['/' as int, '/' as int] + tail && tail == tail[..k] + tail[k..];
      SpanFree(tail, Ascii("/?#"));
      if parts.path != [] {
        PathStart(parts, tail, k);
      }
    } else {
      ParsePathParts(scheme, None, s);
      var parts := ParsePath(scheme, None, s);
      assert s == parts.path + AfterPath(parts);
      assert |parts.path| >= 2 ==> s[..2] == parts.path[..2];
    }
  }

  lemma SchemeFound(text: Bytes, path: Bytes, after: Bytes, j: nat)
    requires text == path + after && SchemeEnds(path, j)
    ensures var k := Span(text, Ascii(":/?#"));
            0 < k < |text| && text[k] == ':' as int
  {
    hide Ascii, Span;
    assert text[..j] == path[..j] && text == text[..j] + text[j..];
    Marks(':' as int);
    SpanExact(text[..j], text[j..], Ascii(":/?#"));
  }

  /**
   * Reading a text divides it without loss: recomposing the parts gives the text
   * back, and each part ends at the mark that ends it.
   */
  lemma RecomposedParse(text: Bytes)
    ensures Recompose(ParseUri(text)) == text && Separated(ParseUri(text))
  {
    hide ParseHierarchy, Ascii, Span, SeparatedHierarchy;
    var k := Span(text, Ascii(":/?#"));
    if 0 < k < |text| && text[k] == ':' as int {
      ParseHierarchyParts(Some(text[..k]), text[k + 1..]);
      assert text == text[..k] + [':' as int] + text[k + 1..];
    } else {
      ParseHierarchyParts(None, text);
      var parts := ParseHierarchy(None, text);
      if parts.authority.None? {
        assert text == parts.path + AfterPath(parts);
        forall j
          ensures !SchemeEnds(parts.path, j)
        {
          if SchemeEnds(parts.path, j) {
            SchemeFound(text, parts.path, AfterPath(parts), j);
          }
        }
      }
    }
  }

  function FileParts(path: Bytes): UriParts {
    UriParts(Some(FILE_SCHEME), Some([]), path, None, None)
  }

  lemma FileRecompose(path: Bytes)
    ensures FILE_PREFIX + path == Recompose(FileParts(path))
  {
    assert FILE_PREFIX == FILE_SCHEME + [':' as int] + [SLASH, SLASH];
  }

  lemma FileSeparated(path: Bytes)
    requires path != [] && path[0] == SLASH
    requires '?' as int !in path && '#' as int !in path
    ensures Separated(FileParts(path))
  {
    var scheme := FILE_SCHEME;
    forall i | 0 <= i < |scheme|
      ensures scheme[i] !in Ascii(":/?#")
    {
      Marks(scheme[i]);
    }
    hide Ascii;
    forall i | 0 <= i < |path|
      ensures path[i] !in Ascii("?#")
    {
      Marks(path[i]);
    }
  }

  /** `file://` before an absolute path without `?` or `#` adds an empty authority and nothing else. */
  lemma ParseFileUri(path: Bytes)
    requires path != [] && path[0] == SLASH
    requires '?' as int !in path && '#' as int !in path
    ensures ParseUri(FILE_PREFIX + path) == UriParts(Some(FILE_SCHEME), Some([]), path, None, None)
  {
    hide ParseUri, Recompose, Separated;
    FileRecompose(path);
    FileSeparated(path);
    ParseOfRecomposed(FileParts(path));
  }
}
