/**
 * The `file:` URI path codec: strict percent-decoding of raw components, their
 * canonical escaped text, and the re-encoding of a canonical path as a URI path.
 * The loops of the codec are methods; the functions beside them say what they compute.
 */
module UriPathCodec {
  import opened PathText
  import opened Utf8

  datatype UriPathError =
    | InvalidEncodedComponent  // malformed escape, or a NUL byte
    | EncodedSeparator         // an escape produced a path separator

  // ---- Hexadecimal digits ----

  function HexValue(b: Byte): (v: Option<nat>)
    ensures v.Some? ==> v.value < 16
  {
    if '0' as int <= b <= '9' as int then Some(b - '0' as int)
    else if 'a' as int <= b <= 'f' as int then Some(b - 'a' as int + 10)
    else if 'A' as int <= b <= 'F' as int then Some(b - 'A' as int + 10)
    else None
  }

  predicate IsHex(b: Byte) {
    HexValue(b).Some?
  }

  function HexDigit(nibble: nat): (b: Byte)
    requires nibble < 16
    ensures HexValue(b) == Some(nibble)
  {
    if nibble < 10 then '0' as int + nibble else 'A' as int + (nibble - 10)
  }

  function Escape(b: Byte): Bytes {
    [PERCENT, HexDigit(b / 16), HexDigit(b % 16)]
  }

  function EscapeAll(s: Bytes): Bytes {
    if s == [] then [] else Escape(s[0]) + EscapeAll(s[1..])
  }

  /** A complete `%HH` triplet stands at the front. */
  predicate Triplet(s: Bytes) {
    |s| >= 3 && s[0] == PERCENT && IsHex(s[1]) && IsHex(s[2])
  }

  function TripletByte(s: Bytes): Byte
    requires Triplet(s)
  {
    HexValue(s[1]).value * 16 + HexValue(s[2]).value
  }

  // ---- Decoding of a raw component ----

  function Prepend(front: Bytes, rest: Option<Bytes>): Option<Bytes> {
    if rest.Some? then Some(front + rest.value) else None
  }

  /** Strict percent-decoding: `+` stays `+`, and every `%` must start a triplet. */
  function PercentDecode(s: Bytes): Option<Bytes> {
    if s == [] then Some([])
    else if s[0] != PERCENT then Prepend([s[0]], PercentDecode(s[1..]))
    else if Triplet(s) then Prepend([TripletByte(s)], PercentDecode(s[3..]))
    else None
  }

  function DecodedBytes(component: Bytes): Result<Bytes, UriPathError> {
    match PercentDecode(component)
    case None => Err(InvalidEncodedComponent)
    case Some(bytes) => if 0 in bytes then Err(InvalidEncodedComponent) else Ok(bytes)
  }

  lemma PrependAssoc(a: Bytes, b: Bytes, rest: Option<Bytes>)
    ensures Prepend(a, Prepend(b, rest)) == Prepend(a + b, rest)
    ensures Prepend([], rest) == rest
  {
    if rest.Some? {
      assert a + (b + rest.value) == a + b + rest.value;
      assert [] + rest.value == rest.value;
    }
  }

  method DecodeUriBytes(component: Bytes) returns (r: Result<Bytes, UriPathError>)
    ensures r == DecodedBytes(component)
  {
    var decoded: Bytes := [];
    var index := 0;
    assert component[index..] == component;
    PrependAssoc([], [], PercentDecode(component));
    while index < |component|
      invariant index <= |component|
      invariant PercentDecode(component) == Prepend(decoded, PercentDecode(component[index..]))
    {
      ghost var rest := component[index..];
      if component[index] != PERCENT {
        PrependAssoc(decoded, [component[index]], PercentDecode(rest[1..]));
        decoded := decoded + [component[index]];
        index := index + 1;
        assert component[index..] == rest[1..];
        continue;
      }
      var high := if index + 1 < |component| then HexValue(component[index + 1]) else None;
      if high == None {
        return Err(InvalidEncodedComponent);
      }
      var low := if index + 2 < |component| then HexValue(component[index + 2]) else None;
      if low == None {
        return Err(InvalidEncodedComponent);
      }
      PrependAssoc(decoded, [high.value * 16 + low.value], PercentDecode(rest[3..]));
      decoded := decoded + [high.value * 16 + low.value];
      index := index + 3;
      assert component[index..] == rest[3..];
    }
    assert component[index..] == [];
    assert decoded + [] == decoded;
    if 0 in decoded {
      return Err(InvalidEncodedComponent);
    }
    return Ok(decoded);
  }

  // ---- Canonical text of native bytes ----

  /** `char::is_control`: U+0000 to U+001F and U+007F to U+009F. */
  predicate IsControl(scalar: Bytes) {
    || (|scalar| == 1 && (scalar[0] <= 0x1F || scalar[0] == 0x7F))
    || (|scalar| == 2 && scalar[0] == 0xC2 && scalar[1] <= 0x9F)
  }

  function ScalarText(scalar: Bytes): Bytes {
    if scalar == [PERCENT] || IsControl(scalar) then EscapeAll(scalar) else scalar
  }

  /**
   * The simple one-step form: emit the scalar that starts here, or escape one
   * byte when none does.
   */
  function Canonical(s: Bytes): Bytes {
    if s == [] then []
    else
      var n := ScalarLen(s);
      if n == 0 then Escape(s[0]) + Canonical(s[1..])
      else ScalarText(s[..n]) + Canonical(s[n..])
  }

  lemma HexTable(nibble: nat)
    requires nibble < 16
    ensures "0123456789ABCDEF"[nibble] as int == HexDigit(nibble)
  {
  }

  method PushUriEscapedByte(canonical: Bytes, b: Byte) returns (grown: Bytes)
    ensures grown == canonical + Escape(b)
  {
    var hex := "0123456789ABCDEF";
    HexTable(b / 16);
    HexTable(b % 16);
    grown := canonical + [PERCENT];
    grown := grown + [hex[b / 16] as int];
    grown := grown + [hex[b % 16] as int];
  }

  method PushEscapedBytes(canonical: Bytes, bytes: Bytes) returns (grown: Bytes)
    ensures grown == canonical + EscapeAll(bytes)
  {
    grown := canonical;
    var i := 0;
    while i < |bytes|
      invariant i <= |bytes|
      invariant grown + EscapeAll(bytes[i..]) == canonical + EscapeAll(bytes)
    {
      ghost var before := grown;
      grown := PushUriEscapedByte(grown, bytes[i]);
      assert before + EscapeAll(bytes[i..]) == grown + EscapeAll(bytes[i..][1..]);
      i := i + 1;
      assert bytes[i - 1..][1..] == bytes[i..];
    }
  }

  lemma CanonicalNil()
    ensures Canonical([]) == [] && Valid([])
  {
  }

  lemma CanonicalStep(s: Bytes)
    requires Valid(s) && s != []
    ensures ScalarLen(s) > 0 && Valid(s[ScalarLen(s)..])
    ensures Canonical(s) == ScalarText(s[..ScalarLen(s)]) + Canonical(s[ScalarLen(s)..])
  {
  }

  /** The scalars of a valid text are visited through its `chars` iterator. */
  method PushUriScalars(canonical: Bytes, text: Bytes) returns (grown: Bytes)
    requires Valid(text)
    ensures grown == canonical + Canonical(text)
  {
    hide Canonical, Valid, EscapeAll;
    grown := canonical;
    var chars := text;
    while chars != []
      invariant Valid(chars)
      invariant grown + Canonical(chars) == canonical + Canonical(text)
      decreases |chars|
    {
      var n := ScalarLen(chars);
      var scalar := chars[..n];
      ghost var before := grown;
      CanonicalStep(chars);
      if scalar == [PERCENT] || IsControl(scalar) {
        grown := PushEscapedBytes(grown, scalar);
      } else {
        grown := grown + scalar;
      }
      Associate(before, ScalarText(scalar), Canonical(chars[n..]));
      chars := chars[n..];
    }
    CanonicalNil();
  }

  lemma CanonicalFront(s: Bytes)
    requires ScalarLen(s) > 0
    ensures Canonical(s) == ScalarText(s[..ScalarLen(s)]) + Canonical(s[ScalarLen(s)..])
  {
  }

  lemma CanonicalByte(s: Bytes)
    requires s != [] && ScalarLen(s) == 0
    ensures Canonical(s) == Escape(s[0]) + Canonical(s[1..])
  {
  }

  lemma {:induction false} CanonicalOfValidFront(valid: Bytes, rest: Bytes)
    requires Valid(valid)
    ensures Canonical(valid + rest) == Canonical(valid) + Canonical(rest)
  {
    hide Canonical;
    if valid == [] {
      CanonicalNil();
      assert valid + rest == rest;
    } else {
      var n := ScalarLen(valid);
      ScalarPrefix(valid, rest);
      assert (valid + rest)[n..] == valid[n..] + rest;
      assert (valid + rest)[..n] == valid[..n];
      CanonicalFront(valid + rest);
      CanonicalFront(valid);
      CanonicalOfValidFront(valid[n..], rest);
      Associate(ScalarText(valid[..n]), Canonical(valid[n..]), Canonical(rest));
    }
  }

  /** The subpart is as long as `error_len` says, or one byte when it says nothing. */
  predicate SubpartOf(s: Bytes, len: nat) {
    && s != [] && ScalarLen(s) == 0
    && len == (if ErrorLen(s).Some? then ErrorLen(s).value else 1)
  }

  lemma {:induction false} SubpartFrom(s: Bytes, len: nat, k: nat)
    requires SubpartOf(s, len) && k <= len
    ensures Canonical(s[k..]) == EscapeAll(s[k..len]) + Canonical(s[len..])
    decreases len - k
  {
    hide Canonical;
    if k < len {
      SubpartFrom(s, len, k + 1);
      if k > 0 {
        InvalidSubpart(s, k);
      }
      assert s[k..][1..] == s[k + 1..];
      assert s[k..len][1..] == s[k + 1..len];
      CanonicalByte(s[k..]);
      Associate(Escape(s[k]), EscapeAll(s[k + 1..len]), Canonical(s[len..]));
    }
  }

  lemma CanonicalOfInvalidSubpart(s: Bytes, len: nat)
    requires SubpartOf(s, len)
    ensures Canonical(s) == EscapeAll(s[..len]) + Canonical(s[len..])
  {
    SubpartFrom(s, len, 0);
  }

  lemma CanonicalChunk(s: Bytes, validEnd: nat, invalidLen: nat)
    requires validEnd <= |s| && Valid(s[..validEnd]) && SubpartOf(s[validEnd..], invalidLen)
    ensures Canonical(s) == Canonical(s[..validEnd]) + EscapeAll(s[validEnd..][..invalidLen])
                            + Canonical(s[validEnd + invalidLen..])
  {
    hide Canonical, Valid, ScalarLen, EscapeAll;
    var tail := s[validEnd..];
    assert s == s[..validEnd] + tail;
    CanonicalOfValidFront(s[..validEnd], tail);
    CanonicalOfInvalidSubpart(tail, invalidLen);
    assert tail[invalidLen..] == s[validEnd + invalidLen..];
    Associate(Canonical(s[..validEnd]), EscapeAll(tail[..invalidLen]), Canonical(tail[invalidLen..]));
  }

  /** The chunked scan: whole valid stretches, then one invalid subpart at a time. */
  method CanonicalizeUriBytes(bytes: Bytes) returns (canonical: Bytes)
    ensures canonical == Canonical(bytes)
  {
    canonical := [];
    var remaining := bytes;
    while remaining != []
      invariant canonical + Canonical(remaining) == Canonical(bytes)
      decreases |remaining|
    {
      match FromUtf8(remaining)
      case Whole =>
        canonical := PushUriScalars(canonical, remaining);
        break;
      case Broken(validEnd, errorLen) =>
        ghost var before := canonical;
        var valid := remaining[..validEnd];
        canonical := PushUriScalars(canonical, valid);
        var invalidLen := if errorLen.Some? then errorLen.value else 1;
        var invalid := remaining[validEnd..][..invalidLen];
        canonical := PushEscapedBytes(canonical, invalid);
        var rest := remaining[validEnd + invalidLen..];
        CanonicalChunk(remaining, validEnd, invalidLen);
        Associate(before, Canonical(valid), EscapeAll(invalid));
        Associate(before, Canonical(valid) + EscapeAll(invalid), Canonical(rest));
        remaining := rest;
    }
  }

  // ---- Components and whole paths ----

  /** The byte text contains what the platform reads as a component separator. */
  predicate HasSeparator(s: Bytes, windows: bool) {
    SLASH in s || (windows && '\\' as int in s)
  }

  function DecodedComponent(component: Bytes, windows: bool): Result<Bytes, UriPathError> {
    match DecodedBytes(component)
    case Err(e) => Err(e)
    case Ok(bytes) =>
      if HasSeparator(Canonical(bytes), windows) then Err(EncodedSeparator) else Ok(Canonical(bytes))
  }

  method DecodeComponent(component: Bytes, windows: bool) returns (r: Result<Bytes, UriPathError>)
    ensures r == DecodedComponent(component, windows)
  {
    var bytes := DecodeUriBytes(component);
    if bytes.Err? {
      return Err(bytes.error);
    }
    var canonical := CanonicalizeUriBytes(bytes.value);
    if SLASH in canonical || (windows && '\\' as int in canonical) {
      return Err(EncodedSeparator);
    }
    return Ok(canonical);
  }

  /** Components are decoded left to right; the first failure is the answer. */
  function DecodedComponents(parts: seq<Bytes>, windows: bool): (r: Result<seq<Bytes>, UriPathError>)
    ensures r.Ok? ==> |r.value| == |parts|
  {
    if parts == [] then Ok([])
    else
      match DecodedComponent(parts[0], windows)
      case Err(e) => Err(e)
      case Ok(first) =>
        match DecodedComponents(parts[1..], windows)
        case Err(e) => Err(e)
        case Ok(rest) => Ok([first] + rest)
  }

  /** The text stage of `decode`, up to the canonical text handed to `Path::parse`. */
  function DecodedText(raw: Bytes, windows: bool): Result<Bytes, UriPathError> {
    match DecodedComponents(Split(raw), windows)
    case Err(e) => Err(e)
    case Ok(components) => Ok(Join(components))
  }

  ghost function After(done: seq<Bytes>, rest: Result<seq<Bytes>, UriPathError>): Result<seq<Bytes>, UriPathError> {
    match rest
    case Err(e) => Err(e)
    case Ok(components) => Ok(done + components)
  }

  lemma AfterAssoc(a: seq<Bytes>, b: seq<Bytes>, rest: Result<seq<Bytes>, UriPathError>)
    ensures After(a, After(b, rest)) == After(a + b, rest)
    ensures After([], rest) == rest
  {
    if rest.Ok? {
      assert a + (b + rest.value) == a + b + rest.value;
      assert [] + rest.value == rest.value;
    }
  }

  method DecodeText(raw: Bytes, windows: bool) returns (r: Result<Bytes, UriPathError>)
    ensures r == DecodedText(raw, windows)
  {
    hide Split, DecodedComponent;
    var parts := Split(raw);
    var canonical: Bytes := [];
    ghost var done: seq<Bytes> := [];
    assert parts[0..] == parts;
    AfterAssoc([], [], DecodedComponents(parts, windows));
    for index := 0 to |parts|
      invariant |done| == index && canonical == Join(done)
      invariant DecodedComponents(parts, windows)
             == After(done, DecodedComponents(parts[index..], windows))
    {
      if index > 0 {
        canonical := canonical + [SLASH];
      }
      var component := DecodeComponent(parts[index], windows);
      var first := parts[index..];
      assert first[1..] == parts[index + 1..];
      if component.Err? {
        return Err(component.error);
      }
      if index > 0 {
        JoinSnoc(done, component.value);
      }
      canonical := canonical + component.value;
      AfterAssoc(done, [component.value], DecodedComponents(parts[index + 1..], windows));
      done := done + [component.value];
    }
    assert done + [] == done;
    return Ok(canonical);
  }

  // ---- The unique URI spelling of a canonical path ----

  predicate IsAlphanumeric(b: Byte) {
    || '0' as int <= b <= '9' as int
    || 'a' as int <= b <= 'z' as int
    || 'A' as int <= b <= 'Z' as int
  }

  /** `=` is not listed, although section 3.3 of RFC 3986 would allow it. */
  predicate IsUriPchar(b: Byte) {
    IsAlphanumeric(b) || (b < 128 && b as char in "-._~!$&'()*+,;:@")
  }

  function UriScalar(scalar: Bytes): Bytes {
    if |scalar| == 1 && (scalar[0] == SLASH || IsUriPchar(scalar[0])) then scalar
    else EscapeAll(scalar)
  }

  lemma TripletStep(text: Bytes)
    requires Valid(text) && Triplet(text)
    ensures Valid(text[3..])
  {
    assert ScalarLen(text) == 1;
    assert text[1..][1..] == text[2..] && text[2..][1..] == text[3..];
    assert Valid(text[1..]) && Valid(text[2..]);
  }

  /** A complete triplet is kept, any other scalar is emitted or escaped. */
  function UriEncode(text: Bytes): Bytes
    requires Valid(text)
    decreases |text|
  {
    if text == [] then []
    else if Triplet(text) then
      TripletStep(text);
      text[..3] + UriEncode(text[3..])
    else
      var n := ScalarLen(text);
      UriScalar(text[..n]) + UriEncode(text[n..])
  }

  lemma EncodeTriplet(text: Bytes)
    requires Valid(text) && Triplet(text)
    ensures Valid(text[3..]) && UriEncode(text) == text[..3] + UriEncode(text[3..])
  {
    TripletStep(text);
  }

  lemma EncodeStep(text: Bytes)
    requires Valid(text) && text != [] && !Triplet(text)
    ensures ScalarLen(text) > 0 && Valid(text[ScalarLen(text)..])
    ensures UriEncode(text) == UriScalar(text[..ScalarLen(text)]) + UriEncode(text[ScalarLen(text)..])
  {
  }

  lemma EncodeNil()
    ensures Valid([]) && UriEncode([]) == []
  {
  }

  /** The index stands on a scalar boundary before every step. */
  method EncodeUriPath(text: Bytes) returns (encoded: Bytes)
    requires Valid(text)
    ensures encoded == UriEncode(text)
  {
    hide UriEncode, Valid, ScalarLen, EscapeAll;
    encoded := [];
    var index := 0;
    EncodeNil();
    assert text[0..] == text;
    while index < |text|
      invariant index <= |text|
      invariant Valid(text[index..])
      invariant encoded + UriEncode(text[index..]) == UriEncode(text)
    {
      ghost var rest := text[index..];
      ghost var before := encoded;
      if text[index] == PERCENT && index + 2 < |text| && IsHex(text[index + 1]) && IsHex(text[index + 2]) {
        encoded := encoded + [PERCENT];
        encoded := encoded + [text[index + 1]];
        encoded := encoded + [text[index + 2]];
        index := index + 3;
        EncodeTriplet(rest);
        assert text[index..] == rest[3..];
        assert encoded == before + rest[..3];
        Associate(before, rest[..3], UriEncode(rest[3..]));
        continue;
      }
      assert !Triplet(rest);
      EncodeStep(rest);
      var n := ScalarLen(text[index..]);
      var scalar := text[index..][..n];
      if |scalar| == 1 && (scalar[0] == SLASH || IsUriPchar(scalar[0])) {
        encoded := encoded + scalar;
      } else {
        encoded := PushEscapedBytes(encoded, scalar);
      }
      index := index + n;
      assert text[index..] == rest[n..];
      Associate(before, UriScalar(scalar), UriEncode(rest[n..]));
    }
    assert text[index..] == [];
  }
}
