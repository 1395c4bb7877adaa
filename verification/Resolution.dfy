/** Resolution of a registry configuration to a logical path and its canonical URI. */
module Resolution {
  import opened PathText
  import opened Utf8
  import opened UriPathCodec
  import opened UriPathLaws
  import opened UriSyntax

  type Text = s: Bytes | Valid(s) witness []

  /** What `Path::parse`, `Uri::parse` and `try_to_uri` of `qubit-fs` decide. */
  datatype Platform = Platform(
    windows: bool,
    parsePath: Text -> Option<Text>,
    acceptsUri: Bytes -> bool,
    convertible: Bytes -> bool)
  {
    /**
     * Assumed of `Path::parse`: a parsed path has no component the text did not
     * have, empty ones aside, and parses to itself.
     */
    ghost predicate ParseRule(text: Text) {
      match parsePath(text)
      case None => true
      case Some(path) =>
        && parsePath(path) == Some(path)
        && forall i :: 0 <= i < |Split(path)| ==> Split(path)[i] == [] || Split(path)[i] in Split(text)
    }

    /** Assumed of URIs: an accepted canonical URI can be converted again. */
    ghost predicate UriRule(uri: Bytes) {
      acceptsUri(uri) ==> convertible(uri)
    }

    ghost predicate Rules() {
      && (forall text: Text :: ParseRule(text))
      && (forall uri :: UriRule(uri))
    }
  }

  datatype FileSystemConfig = FileSystemConfig(uri: Bytes, hasOptions: bool, hasMetadata: bool, hasCredential: bool)

  datatype ProviderError =
    | UnsupportedScheme
    | UriConversion
    | UnsupportedOptions
    | RemoteAuthority
    | UnsupportedQuery
    | InvalidPath(error: UriPathError)
    | PathRejected
    | RelativePath
    | UriRejected

  datatype Resolved = Resolved(path: Text, uri: Bytes)

  predicate IsAbsolute(path: Bytes) {
    path != [] && path[0] == SLASH
  }

  function Decode(raw: Bytes, platform: Platform): Result<Text, ProviderError> {
    match DecodedText(raw, platform.windows)
    case Err(e) => Err(InvalidPath(e))
    case Ok(text) =>
      RoundTrip(raw, platform.windows);
      match platform.parsePath(text)
      case None => Err(PathRejected)
      case Some(path) => Ok(path)
  }

  function FileUri(path: Text): Bytes {
    FILE_PREFIX + UriEncode(path)
  }

  function CanonicalUri(path: Text, platform: Platform): Result<Bytes, ProviderError> {
    if platform.acceptsUri(FileUri(path)) then Ok(FileUri(path)) else Err(UriRejected)
  }

  /** The checks run in this order; a fragment is not looked at. */
  function DecodeConfig(config: FileSystemConfig, platform: Platform): Result<Resolved, ProviderError> {
    var uri := ParseUri(config.uri);
    if uri.scheme != Some(FILE_SCHEME) then Err(UnsupportedScheme)
    else if !platform.convertible(config.uri) then Err(UriConversion)
    else if config.hasOptions || config.hasMetadata || config.hasCredential then Err(UnsupportedOptions)
    else if uri.authority.Some? && uri.authority.value != [] then Err(RemoteAuthority)
    else if uri.query.Some? then Err(UnsupportedQuery)
    else
      match Decode(uri.path, platform)
      case Err(e) => Err(e)
      case Ok(path) =>
        if !IsAbsolute(path) then Err(RelativePath)
        else
          match CanonicalUri(path, platform)
          case Err(e) => Err(e)
          case Ok(canonical) => Ok(Resolved(path, canonical))
  }

  /** Everything `decode_config` checks before it looks at the path. */
  predicate LocalFileConfig(config: FileSystemConfig, platform: Platform) {
    var uri := ParseUri(config.uri);
    && uri.scheme == Some(FILE_SCHEME) && platform.convertible(config.uri)
    && !config.hasOptions && !config.hasMetadata && !config.hasCredential
    && (uri.authority == None || uri.authority == Some([])) && uri.query == None
  }

  /** The path that the components of a raw path name, as `Path::parse` accepts it. */
  ghost function NamedPath(raw: Bytes, platform: Platform): Option<Text> {
    if AllAcceptable(Split(raw), platform.windows) then
      DecodedNames(raw, platform.windows);
      platform.parsePath(Join(CanonicalParts(raw, platform.windows)))
    else None
  }

  /**
   * A configuration resolves exactly when it is a local `file:` URI without query,
   * options, metadata or credential, each component of its path is well escaped and
   * names bytes without NUL or separator, and the path those names make is an
   * absolute one that has a URI; the resolution is that path and that URI. A foreign
   * scheme, whatever else is wrong, and nothing but it is unsupported; a component
   * that cannot be decoded is reported once everything before the path is in order.
   */
  lemma ConfigExact(config: FileSystemConfig, platform: Platform)
    ensures var uri := ParseUri(config.uri);
            var named := NamedPath(uri.path, platform);
            var r := DecodeConfig(config, platform);
            && (r.Ok? <==>
                  && LocalFileConfig(config, platform)
                  && named.Some? && [SLASH] <= named.value && platform.acceptsUri(FileUri(named.value)))
            && (r.Ok? ==> r.value == Resolved(named.value, FileUri(named.value)))
            && (r == Err(UnsupportedScheme) <==> uri.scheme != Some(FILE_SCHEME))
            && (r.Err? && r.error.InvalidPath? <==>
                  LocalFileConfig(config, platform) && !AllAcceptable(Split(uri.path), platform.windows))
  {
    var raw, windows := ParseUri(config.uri).path, platform.windows;
    DecodeExact(raw, windows);
    if AllAcceptable(Split(raw), windows) {
      DecodedNames(raw, windows);
    }
  }

  /** A configuration refused for its path has passed every check before it. */
  ghost predicate PathReached(config: FileSystemConfig, platform: Platform) {
    LocalFileConfig(config, platform) && AllAcceptable(Split(ParseUri(config.uri).path), platform.windows)
  }

  /** Which refusal is answered: that of the first check that fails, in the order of the checks. */
  lemma ConfigRefusals(config: FileSystemConfig, platform: Platform)
    ensures var uri := ParseUri(config.uri);
            var scheme, remote := uri.scheme == Some(FILE_SCHEME), uri.authority.Some? && uri.authority.value != [];
            var extras := config.hasOptions || config.hasMetadata || config.hasCredential;
            var r := DecodeConfig(config, platform);
            && (r == Err(UriConversion) <==> scheme && !platform.convertible(config.uri))
            && (r == Err(UnsupportedOptions) <==> scheme && platform.convertible(config.uri) && extras)
            && (r == Err(RemoteAuthority) <==> scheme && platform.convertible(config.uri) && !extras && remote)
            && (r == Err(UnsupportedQuery) <==>
                  scheme && platform.convertible(config.uri) && !extras && !remote && uri.query.Some?)
  {
  }

  lemma ConfigPathRefusals(config: FileSystemConfig, platform: Platform)
    ensures var raw := ParseUri(config.uri).path;
            var named := NamedPath(raw, platform);
            var r := DecodeConfig(config, platform);
            && (r == Err(PathRejected) <==> PathReached(config, platform) && named.None?)
            && (r == Err(RelativePath) <==> PathReached(config, platform) && named.Some? && !([SLASH] <= named.value))
            && (r == Err(UriRejected) <==>
                  && PathReached(config, platform) && named.Some? && [SLASH] <= named.value
                  && !platform.acceptsUri(FileUri(named.value)))
            && (r.Err? && r.error.InvalidPath? ==>
                  exists i :: FirstUnacceptable(Split(raw), i, platform.windows)
                              && r.error.error == Blame(Split(raw)[i]))
  {
    var raw, windows := ParseUri(config.uri).path, platform.windows;
    DecodeExact(raw, windows);
    DecodeBlames(raw, windows);
    if AllAcceptable(Split(raw), windows) {
      DecodedNames(raw, windows);
    }
  }

  /** Configurations whose paths name the same bytes component by component resolve alike. */
  lemma SameNamesResolveAlike(config1: FileSystemConfig, config2: FileSystemConfig, platform: Platform)
    requires LocalFileConfig(config1, platform) && LocalFileConfig(config2, platform)
    requires SameNames(ParseUri(config1.uri).path, ParseUri(config2.uri).path)
    ensures DecodeConfig(config1, platform).Ok? <==> DecodeConfig(config2, platform).Ok?
    ensures DecodeConfig(config1, platform).Ok? ==> DecodeConfig(config1, platform) == DecodeConfig(config2, platform)
  {
    var raw1, raw2 := ParseUri(config1.uri).path, ParseUri(config2.uri).path;
    var windows := platform.windows;
    ConfigExact(config1, platform);
    ConfigExact(config2, platform);
    hide DecodeConfig;
    assert forall i :: 0 <= i < |Split(raw1)| ==>
        (Acceptable(Split(raw1)[i], windows) <==> Acceptable(Split(raw2)[i], windows));
    if AllAcceptable(Split(raw1), windows) {
      assert CanonicalParts(raw1, windows) == CanonicalParts(raw2, windows);
    }
  }

  /** The configuration a caller builds from a canonical URI alone. */
  function Replay(uri: Bytes): FileSystemConfig {
    FileSystemConfig(uri, false, false, false)
  }

  lemma EncodeAbsolute(path: Text)
    requires IsAbsolute(path)
    ensures IsAbsolute(UriEncode(path))
  {
    assert path[..1] == [SLASH];
    assert UriEncode(path) == [SLASH] + UriEncode(path[1..]);
  }

  lemma FileUriParts(path: Text)
    requires IsAbsolute(path)
    ensures ParseUri(FileUri(path))
         == UriParts(Some(FILE_SCHEME), Some([]), UriEncode(path), None, None)
  {
    EncodeAbsolute(path);
    EncodeNormal(path);
    NormalIsRfc3986(UriEncode(path));
    ParseFileUri(UriEncode(path));
  }

  /** Whatever `Path::parse` drops, the path of a resolution is canonical text. */
  lemma DecodedPathCanonical(raw: Bytes, platform: Platform)
    requires platform.Rules() && Decode(raw, platform).Ok?
    ensures CanonicalPath(Decode(raw, platform).value, platform.windows)
  {
    var windows := platform.windows;
    var text := DecodedText(raw, windows).value;
    RoundTrip(raw, windows);
    DecodeIsCanonical(raw, windows);
    var path := Decode(raw, platform).value;
    assert platform.ParseRule(text);
    forall i | 0 <= i < |Split(path)|
      ensures CanonicalComponent(Split(path)[i], windows)
    {
      if Split(path)[i] != [] {
        var j :| 0 <= j < |Split(text)| && Split(text)[j] == Split(path)[i];
        assert CanonicalComponent(Split(text)[j], windows);
      }
    }
  }

  lemma DecodeAgain(path: Text, platform: Platform)
    requires CanonicalPath(path, platform.windows) && platform.parsePath(path) == Some(path)
    ensures Decode(UriEncode(path), platform) == Ok(path)
  {
    CanonicalRoundTrip(path, platform.windows);
  }

  /** What a successful resolution says about its configuration. */
  lemma ResolvedFrom(config: FileSystemConfig, platform: Platform)
    ensures match DecodeConfig(config, platform)
            case Err(_) => true
            case Ok(first) =>
              && Decode(ParseUri(config.uri).path, platform) == Ok(first.path)
              && IsAbsolute(first.path)
              && CanonicalUri(first.path, platform) == Ok(first.uri)
  {
    hide Decode, ParseUri, CanonicalUri;
  }

  lemma DecodedPathParses(raw: Bytes, platform: Platform)
    requires platform.Rules() && Decode(raw, platform).Ok?
    ensures var path := Decode(raw, platform).value;
            platform.parsePath(path) == Some(path)
  {
    RoundTrip(raw, platform.windows);
    var text: Text := DecodedText(raw, platform.windows).value;
    assert platform.ParseRule(text);
  }

  /** Every path handed on to `canonical_uri` comes back from the URI path it is given. */
  lemma DecodedPathReturns(raw: Bytes, platform: Platform)
    requires platform.Rules() && Decode(raw, platform).Ok?
    ensures var path := Decode(raw, platform).value;
            Decode(UriEncode(path), platform) == Ok(path)
  {
    DecodedPathCanonical(raw, platform);
    DecodedPathParses(raw, platform);
    DecodeAgain(Decode(raw, platform).value, platform);
  }

  /** Resolving the canonical URI of a resolution gives that same resolution. */
  lemma ResolveFixedPoint(config: FileSystemConfig, platform: Platform)
    requires platform.Rules()
    ensures match DecodeConfig(config, platform)
            case Err(_) => true
            case Ok(first) => DecodeConfig(Replay(first.uri), platform) == Ok(first)
  {
    if DecodeConfig(config, platform).Ok? {
      var path := DecodeConfig(config, platform).value.path;
      ResolvedFrom(config, platform);
      DecodedPathReturns(ParseUri(config.uri).path, platform);
      FileUriParts(path);
      assert platform.UriRule(FileUri(path));
    }
  }

  /** Two resolutions have the same canonical URI exactly when they have the same path. */
  lemma UriIdentifiesPath(config1: FileSystemConfig, config2: FileSystemConfig, platform: Platform)
    requires platform.Rules()
    ensures var r1, r2 := DecodeConfig(config1, platform), DecodeConfig(config2, platform);
            r1.Ok? && r2.Ok? ==> (r1.value.uri == r2.value.uri <==> r1.value.path == r2.value.path)
  {
    var r1, r2 := DecodeConfig(config1, platform), DecodeConfig(config2, platform);
    ResolveFixedPoint(config1, platform);
    ResolveFixedPoint(config2, platform);
    if r1.Ok? && r2.Ok? {
      ResolvedFrom(config1, platform);
      ResolvedFrom(config2, platform);
      hide DecodeConfig;
    }
  }

  /** The assumptions can be met: by a parser that takes every text as it is. */
  lemma RulesCanBeMet(windows: bool)
    ensures Platform(windows, (text: Text) => Some(text), uri => true, uri => true).Rules()
  {
    var platform := Platform(windows, (text: Text) => Some(text), uri => true, uri => true);
    forall text: Text
      ensures platform.ParseRule(text)
    {
      assert platform.parsePath(text) == Some(text);
    }
  }
}
