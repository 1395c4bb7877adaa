/** What the path codec guarantees about every raw path and every canonical text. */
module UriPathLaws {
  import opened PathText
  import opened Utf8
  import opened UriPathCodec

  // ---- Percent-decoding undoes every way of writing bytes ----

  lemma DecodeEscape(b: Byte, rest: Bytes)
    ensures PercentDecode(Escape(b) + rest) == Prepend([b], PercentDecode(rest))
  {
    var s := Escape(b) + rest;
    assert s[3..] == rest;
    assert TripletByte(s) == b;
  }

  lemma {:induction false} DecodeEscapeAll(bytes: Bytes, rest: Bytes)
    ensures PercentDecode(EscapeAll(bytes) + rest) == Prepend(bytes, PercentDecode(rest))
  {
    if bytes == [] {
      assert EscapeAll(bytes) + rest == rest;
      PrependAssoc([], [], PercentDecode(rest));
    } else {
      DecodeEscapeAll(bytes[1..], rest);
      Associate(Escape(bytes[0]), EscapeAll(bytes[1..]), rest);
      DecodeEscape(bytes[0], EscapeAll(bytes[1..]) + rest);
      PrependAssoc([bytes[0]], bytes[1..], PercentDecode(rest));
      assert [bytes[0]] + bytes[1..] == bytes;
    }
  }

  lemma {:induction false} DecodePlain(plain: Bytes, rest: Bytes)
    requires PERCENT !in plain
    ensures PercentDecode(plain + rest) == Prepend(plain, PercentDecode(rest))
  {
    if plain == [] {
      assert plain + rest == rest;
      PrependAssoc([], [], PercentDecode(rest));
    } else {
      DecodePlain(plain[1..], rest);
      assert (plain + rest)[1..] == plain[1..] + rest;
      PrependAssoc([plain[0]], plain[1..], PercentDecode(rest));
      assert [plain[0]] + plain[1..] == plain;
    }
  }

  lemma DecodeScalarText(scalar: Bytes, rest: Bytes)
    requires Scalar(scalar)
    ensures PercentDecode(ScalarText(scalar) + rest) == Prepend(scalar, PercentDecode(rest))
  {
    ScalarInner(scalar);
    if scalar == [PERCENT] || IsControl(scalar) {
      DecodeEscapeAll(scalar, rest);
    } else {
      DecodePlain(scalar, rest);
    }
  }

  lemma DecodeCanonicalScalar(bytes: Bytes)
    requires ScalarLen(bytes) > 0
    requires PercentDecode(Canonical(bytes[ScalarLen(bytes)..])) == Some(bytes[ScalarLen(bytes)..])
    ensures PercentDecode(Canonical(bytes)) == Some(bytes)
  {
    hide PercentDecode, Canonical, EscapeAll;
    var n := ScalarLen(bytes);
    FrontIsScalar(bytes);
    DecodeScalarText(bytes[..n], Canonical(bytes[n..]));
    CanonicalFront(bytes);
    assert bytes == bytes[..n] + bytes[n..];
  }

  /** Canonicalization loses nothing: strict decoding gives the bytes back. */
  lemma {:induction false} DecodeCanonical(bytes: Bytes)
    ensures PercentDecode(Canonical(bytes)) == Some(bytes)
  {
    if bytes != [] {
      var n := ScalarLen(bytes);
      if n == 0 {
        DecodeCanonical(bytes[1..]);
        DecodeEscape(bytes[0], Canonical(bytes[1..]));
        assert bytes == [bytes[0]] + bytes[1..];
      } else {
        DecodeCanonical(bytes[n..]);
        DecodeCanonicalScalar(bytes);
      }
    }
  }

  /** The codec's own decoder accepts the canonical text of every NUL-free byte string. */
  lemma DecodedBytesOfCanonical(bytes: Bytes)
    ensures DecodedBytes(Canonical(bytes)) == if 0 in bytes then Err(InvalidEncodedComponent) else Ok(bytes)
  {
    DecodeCanonical(bytes);
  }

  lemma CanonicalInjective(a: Bytes, b: Bytes)
    requires Canonical(a) == Canonical(b)
    ensures a == b
  {
    DecodeCanonical(a);
    DecodeCanonical(b);
  }

  /** The byte test for control characters is the code-point test. */
  lemma ControlsByCodePoint(scalar: Bytes)
    requires Scalar(scalar)
    ensures IsControl(scalar) <==> CodePoint(scalar) <= 0x1F || 0x7F <= CodePoint(scalar) <= 0x9F
  {
  }

  // ---- Canonical text is a Rust string and keeps separators visible ----

  lemma {:induction false} EscapeAllValid(bytes: Bytes)
    ensures Valid(EscapeAll(bytes))
  {
    if bytes != [] {
      EscapeAllValid(bytes[1..]);
      AsciiValid(Escape(bytes[0]));
      ValidConcat(Escape(bytes[0]), EscapeAll(bytes[1..]));
    }
  }

  lemma {:induction false} CanonicalValid(bytes: Bytes)
    ensures Valid(Canonical(bytes))
  {
    if bytes != [] {
      var n := ScalarLen(bytes);
      if n == 0 {
        CanonicalValid(bytes[1..]);
        AsciiValid(Escape(bytes[0]));
        ValidConcat(Escape(bytes[0]), Canonical(bytes[1..]));
      } else {
        CanonicalValid(bytes[n..]);
        FrontIsScalar(bytes);
        EscapeAllValid(bytes[..n]);
        ValidConcat(ScalarText(bytes[..n]), Canonical(bytes[n..]));
      }
    }
  }

  /** Printable ASCII that canonical text neither escapes nor uses in escapes. */
  predicate Transparent(c: Byte) {
    0x20 <= c <= 0x7E && c != PERCENT && !IsHex(c)
  }

  lemma {:induction false} EscapeAllOpaque(bytes: Bytes, c: Byte)
    requires Transparent(c)
    ensures c !in EscapeAll(bytes)
  {
    if bytes != [] {
      EscapeAllOpaque(bytes[1..], c);
      assert c !in Escape(bytes[0]);
    }
  }

  lemma ScalarTextKeeps(scalar: Bytes, c: Byte)
    requires Scalar(scalar) && Transparent(c)
    ensures c in ScalarText(scalar) <==> c in scalar
  {
    hide EscapeAll;
    ScalarInner(scalar);
    EscapeAllOpaque(scalar, c);
    if scalar == [PERCENT] || IsControl(scalar) {
      assert c !in scalar;
    }
  }

  lemma {:induction false} CanonicalKeeps(bytes: Bytes, c: Byte)
    requires Transparent(c)
    ensures c in Canonical(bytes) <==> c in bytes
  {
    hide Canonical, EscapeAll;
    if bytes == [] {
      CanonicalNil();
    } else if ScalarLen(bytes) == 0 {
      CanonicalKeeps(bytes[1..], c);
      CanonicalByte(bytes);
      assert c !in Escape(bytes[0]) && bytes[0] != c;
      assert bytes == [bytes[0]] + bytes[1..];
    } else {
      var n := ScalarLen(bytes);
      CanonicalKeeps(bytes[n..], c);
      FrontIsScalar(bytes);
      ScalarTextKeeps(bytes[..n], c);
      CanonicalFront(bytes);
      assert bytes == bytes[..n] + bytes[n..];
    }
  }

  lemma SeparatorsOfCanonical(bytes: Bytes, windows: bool)
    ensures HasSeparator(Canonical(bytes), windows) <==> HasSeparator(bytes, windows)
  {
    CanonicalKeeps(bytes, SLASH);
    CanonicalKeeps(bytes, '\\' as int);
  }

  // ---- Acceptance is exact and the hierarchy is preserved ----

  /** Native bytes that may stand as one path component. */
  predicate ComponentBytes(bytes: Bytes, windows: bool) {
    0 !in bytes && SLASH !in bytes && (windows ==> '\\' as int !in bytes)
  }

  predicate Acceptable(part: Bytes, windows: bool) {
    PercentDecode(part).Some? && ComponentBytes(PercentDecode(part).value, windows)
  }

  ghost predicate AllAcceptable(parts: seq<Bytes>, windows: bool) {
    forall i :: 0 <= i < |parts| ==> Acceptable(parts[i], windows)
  }

  lemma ComponentExact(part: Bytes, windows: bool)
    ensures DecodedComponent(part, windows).Ok? <==> Acceptable(part, windows)
    ensures Acceptable(part, windows) ==>
              DecodedComponent(part, windows) == Ok(Canonical(PercentDecode(part).value))
  {
    var bytes := PercentDecode(part);
    if bytes.Some? {
      SeparatorsOfCanonical(bytes.value, windows);
    }
  }

  lemma {:induction false} ComponentsExact(parts: seq<Bytes>, windows: bool)
    ensures DecodedComponents(parts, windows).Ok?
       <==> AllAcceptable(parts, windows)
    ensures DecodedComponents(parts, windows).Ok? ==>
              forall i :: 0 <= i < |parts| ==>
                DecodedComponents(parts, windows).value[i] == Canonical(PercentDecode(parts[i]).value)
  {
    if parts != [] {
      ComponentExact(parts[0], windows);
      ComponentsExact(parts[1..], windows);
      var rest := parts[1..];
      assert forall i :: 1 <= i < |parts| ==> parts[i] == rest[i - 1];
      if i :| 0 <= i < |parts| && !Acceptable(parts[i], windows) {
        if i > 0 {
          assert !Acceptable(rest[i - 1], windows);
        }
      } else {
        assert forall i :: 0 <= i < |rest| ==> rest[i] == parts[i + 1];
      }
    }
  }

  /**
   * `decode` accepts a raw path exactly when every component has well-formed
   * escapes and decodes to bytes without NUL or a separator. Accepted paths keep
   * their components one for one, each depending on its raw component alone.
   */
  lemma DecodeExact(raw: Bytes, windows: bool)
    ensures DecodedText(raw, windows).Ok?
       <==> AllAcceptable(Split(raw), windows)
    ensures DecodedText(raw, windows).Ok? ==>
              var parts := Split(DecodedText(raw, windows).value);
              && |parts| == |Split(raw)|
              && forall i :: 0 <= i < |parts| ==> parts[i] == Canonical(PercentDecode(Split(raw)[i]).value)
  {
    var parts := Split(raw);
    ComponentsExact(parts, windows);
    if DecodedText(raw, windows).Ok? {
      var components := DecodedComponents(parts, windows).value;
      forall i | 0 <= i < |components|
        ensures SLASH !in components[i]
      {
        assert Acceptable(parts[i], windows);
        SeparatorsOfCanonical(PercentDecode(parts[i]).value, windows);
      }
      SplitJoin(components);
    }
  }

  /** The first component that is not acceptable. */
  ghost predicate FirstUnacceptable(parts: seq<Bytes>, i: int, windows: bool) {
    0 <= i < |parts| && AllAcceptable(parts[..i], windows) && !Acceptable(parts[i], windows)
  }

  /** A separator is blamed only where escapes and NUL are in order. */
  function Blame(part: Bytes): UriPathError {
    match PercentDecode(part)
    case None => InvalidEncodedComponent
    case Some(bytes) => if 0 in bytes then InvalidEncodedComponent else EncodedSeparator
  }

  lemma {:induction false} ComponentsBlame(parts: seq<Bytes>, windows: bool, i: nat)
    requires FirstUnacceptable(parts, i, windows)
    ensures DecodedComponents(parts, windows) == Err(Blame(parts[i]))
  {
    ComponentExact(parts[0], windows);
    if i == 0 {
      assert DecodedComponent(parts[0], windows) == Err(Blame(parts[0]));
    } else {
      assert parts[..i][0] == parts[0];
      assert Acceptable(parts[0], windows);
      var before := parts[1..][..i - 1];
      forall j | 0 <= j < |before|
        ensures Acceptable(before[j], windows)
      {
        assert before[j] == parts[..i][j + 1];
      }
      ComponentsBlame(parts[1..], windows, i - 1);
    }
  }

  lemma {:induction false} SomeUnacceptable(parts: seq<Bytes>, windows: bool) returns (i: nat)
    requires !AllAcceptable(parts, windows)
    ensures FirstUnacceptable(parts, i, windows)
  {
    var k :| 0 <= k < |parts| && !Acceptable(parts[k], windows);
    i := 0;
    while Acceptable(parts[i], windows)
      invariant i <= k && AllAcceptable(parts[..i], windows)
      decreases k - i
    {
      i := i + 1;
    }
  }

  /** A rejected path is blamed on its first unacceptable component, and for what is wrong with it. */
  lemma DecodeBlames(raw: Bytes, windows: bool)
    ensures var parts := Split(raw);
            DecodedText(raw, windows).Err? ==>
              exists i :: FirstUnacceptable(parts, i, windows)
                          && DecodedText(raw, windows) == Err(Blame(parts[i]))
  {
    var parts := Split(raw);
    if DecodedText(raw, windows).Err? {
      DecodeExact(raw, windows);
      var i := SomeUnacceptable(parts, windows);
      ComponentsBlame(parts, windows, i);
      assert FirstUnacceptable(parts, i, windows);
    }
  }

  // ---- Meaning of the encoder ----

  /** Complete triplets stand for their byte, everything else for itself. */
  function LenientDecode(text: Bytes): Bytes {
    if text == [] then []
    else if Triplet(text) then [TripletByte(text)] + LenientDecode(text[3..])
    else [text[0]] + LenientDecode(text[1..])
  }

  lemma {:induction false} LenientIsStrict(text: Bytes)
    requires PercentDecode(text).Some?
    ensures LenientDecode(text) == PercentDecode(text).value
  {
    if text != [] {
      LenientIsStrict(if text[0] == PERCENT then text[3..] else text[1..]);
    }
  }

  lemma {:induction false} LenientPlain(plain: Bytes, rest: Bytes)
    requires PERCENT !in plain
    ensures LenientDecode(plain + rest) == plain + LenientDecode(rest)
  {
    if plain == [] {
      assert plain + rest == rest;
    } else {
      LenientPlain(plain[1..], rest);
      assert !Triplet(plain + rest);
      assert (plain + rest)[1..] == plain[1..] + rest;
    }
  }

  lemma DecodeUriScalar(scalar: Bytes, rest: Bytes)
    requires Scalar(scalar)
    ensures PercentDecode(UriScalar(scalar) + rest) == Prepend(scalar, PercentDecode(rest))
  {
    if |scalar| == 1 && (scalar[0] == SLASH || IsUriPchar(scalar[0])) {
      DecodePlain(scalar, rest);
    } else {
      DecodeEscapeAll(scalar, rest);
    }
  }

  lemma KeepsTriplet(text: Bytes, rest: Bytes)
    requires Triplet(text) && PercentDecode(rest) == Some(LenientDecode(text[3..]))
    ensures PercentDecode(text[..3] + rest) == Some(LenientDecode(text))
  {
    var s := text[..3] + rest;
    assert s[3..] == rest;
    assert TripletByte(s) == TripletByte(text);
  }

  lemma KeepsScalar(text: Bytes, rest: Bytes)
    requires ScalarLen(text) > 0 && !Triplet(text)
    requires PercentDecode(rest) == Some(LenientDecode(text[ScalarLen(text)..]))
    ensures PercentDecode(UriScalar(text[..ScalarLen(text)]) + rest) == Some(LenientDecode(text))
  {
    hide PercentDecode;
    var scalar := text[..ScalarLen(text)];
    var tail := text[ScalarLen(text)..];
    FrontIsScalar(text);
    DecodeUriScalar(scalar, rest);
    ScalarInner(scalar);
    assert text == scalar + tail;
    if scalar == [PERCENT] {
      assert text[1..] == tail;
    } else {
      LenientPlain(scalar, tail);
    }
  }

  /** The encoder never changes which bytes a path text names, stray `%` included. */
  lemma {:induction false} EncodeKeepsBytes(text: Bytes)
    requires Valid(text)
    ensures PercentDecode(UriEncode(text)) == Some(LenientDecode(text))
    decreases |text|
  {
    if text != [] {
      if Triplet(text) {
        EncodeTriplet(text);
        EncodeKeepsBytes(text[3..]);
        KeepsTriplet(text, UriEncode(text[3..]));
      } else {
        EncodeStep(text);
        EncodeKeepsBytes(text[ScalarLen(text)..]);
        KeepsScalar(text, UriEncode(text[ScalarLen(text)..]));
      }
    }
  }

  // ---- Normal form of the encoder ----

  /** Slashes, unescaped path characters and complete triplets, nothing else. */
  predicate NormalForm(s: Bytes) {
    s == [] ||
    if Triplet(s) then NormalForm(s[3..])
    else (s[0] == SLASH || IsUriPchar(s[0])) && NormalForm(s[1..])
  }

  lemma PercentIsNoPchar(b: Byte)
    ensures b == PERCENT ==> !IsUriPchar(b)
  {
  }

  lemma {:induction false} NormalConcat(a: Bytes, b: Bytes)
    requires NormalForm(a) && NormalForm(b)
    ensures NormalForm(a + b)
  {
    hide IsUriPchar;
    if a == [] {
      assert a + b == b;
    } else {
      var k := if Triplet(a) then 3 else 1;
      PercentIsNoPchar(a[0]);
      NormalConcat(a[k..], b);
      assert (a + b)[k..] == a[k..] + b;
    }
  }

  lemma {:induction false} EscapeAllNormal(bytes: Bytes)
    ensures NormalForm(EscapeAll(bytes)) && |EscapeAll(bytes)| == 3 * |bytes|
  {
    if bytes != [] {
      EscapeAllNormal(bytes[1..]);
      assert EscapeAll(bytes)[3..] == EscapeAll(bytes[1..]);
    }
  }

  lemma UriScalarNormal(scalar: Bytes)
    requires Scalar(scalar)
    ensures NormalForm(UriScalar(scalar)) && |UriScalar(scalar)| <= 3 * |scalar|
  {
    EscapeAllNormal(scalar);
    assert scalar[1..] == [] || |scalar| > 1;
  }

  /** Every encoding is in normal form and at most three times as long as its text. */
  lemma {:induction false} EncodeNormal(text: Bytes)
    requires Valid(text)
    ensures NormalForm(UriEncode(text)) && |UriEncode(text)| <= 3 * |text|
    decreases |text|
  {
    if text != [] {
      if Triplet(text) {
        TripletStep(text);
        EncodeNormal(text[3..]);
        assert (text[..3] + UriEncode(text[3..]))[3..] == UriEncode(text[3..]);
      } else {
        var n := ScalarLen(text);
        FrontIsScalar(text);
        EncodeNormal(text[n..]);
        UriScalarNormal(text[..n]);
        NormalConcat(UriScalar(text[..n]), UriEncode(text[n..]));
      }
    }
  }

  lemma PcharIsAscii(b: Byte)
    ensures IsUriPchar(b) ==> b <= 0x7F
  {
  }

  lemma PlainStep(s: Bytes)
    requires s != [] && Valid(s) && Valid(s[1..]) && !Triplet(s)
    requires s[0] == SLASH || IsUriPchar(s[0])
    ensures UriEncode(s) == s[..1] + UriEncode(s[1..])
  {
    hide Valid, UriEncode, EscapeAll, IsUriPchar;
    PcharIsAscii(s[0]);
    EncodeStep(s);
  }

  lemma AsciiFront(s: Bytes, k: nat)
    requires k <= |s| && Valid(s[k..])
    requires forall i :: 0 <= i < k ==> s[i] <= 0x7F
    ensures Valid(s) && s == s[..k] + s[k..]
  {
    hide Valid;
    AsciiValid(s[..k]);
    assert s == s[..k] + s[k..];
    ValidConcat(s[..k], s[k..]);
  }

  lemma {:induction false} NormalIsFixed(s: Bytes)
    requires NormalForm(s)
    ensures Valid(s) && UriEncode(s) == s
  {
    hide Valid, UriEncode, IsUriPchar;
    EncodeNil();
    if s != [] {
      if Triplet(s) {
        NormalIsFixed(s[3..]);
        AsciiFront(s, 3);
        EncodeTriplet(s);
      } else {
        NormalIsFixed(s[1..]);
        PcharIsAscii(s[0]);
        AsciiFront(s, 1);
        PlainStep(s);
      }
    }
  }

  /**
   * Encoding again changes nothing, and the texts the encoder leaves alone are
   * exactly those in normal form.
   */
  lemma EncoderFixedPoints(text: Bytes)
    requires Valid(text)
    ensures UriEncode(text) == text <==> NormalForm(text)
    ensures Valid(UriEncode(text)) && UriEncode(UriEncode(text)) == UriEncode(text)
  {
    EncodeNormal(text);
    NormalIsFixed(UriEncode(text));
    if NormalForm(text) {
      NormalIsFixed(text);
    }
  }

  /** `HEXDIG` of section 2.1 of RFC 3986, where lower-case digits count as well. */
  predicate Rfc3986HexDigit(b: Byte) {
    b < 128 && b as char in "0123456789ABCDEFabcdef"
  }

  /** `pct-encoded` of section 2.1 of RFC 3986 at the front. */
  predicate Rfc3986Escape(s: Bytes) {
    |s| >= 3 && s[0] == '%' as int && Rfc3986HexDigit(s[1]) && Rfc3986HexDigit(s[2])
  }

  /** `pchar` of section 3.3 of RFC 3986 without its escapes. */
  predicate Rfc3986Pchar(b: Byte) {
    || 0x41 <= b <= 0x5A || 0x61 <= b <= 0x7A      // ALPHA
    || 0x30 <= b <= 0x39                           // DIGIT
    || (b < 128 && b as char in "-._~")           // unreserved
    || (b < 128 && b as char in "!$&'()*+,;=")    // sub-delims
    || (b < 128 && b as char in ":@")
  }

  /** A run of segments separated by slashes, with section 2.1's triplets. */
  predicate Rfc3986Path(s: Bytes) {
    || s == []
    || (Rfc3986Escape(s) && Rfc3986Path(s[3..]))
    || ((s[0] == SLASH || Rfc3986Pchar(s[0])) && Rfc3986Path(s[1..]))
  }

  lemma PcharIsRfc3986(b: Byte)
    ensures IsUriPchar(b) ==> Rfc3986Pchar(b) && b != '?' as int && b != '#' as int
  {
  }

  /** The codec's hexadecimal digits are those of the grammar, lower case included. */
  lemma TripletIsEscape(s: Bytes)
    ensures forall b: Byte :: IsHex(b) <==> Rfc3986HexDigit(b)
    ensures Triplet(s) <==> Rfc3986Escape(s)
    ensures Triplet(s) ==> |s| >= 3
  {
    var digits := "0123456789ABCDEFabcdef";
    forall b: Byte
      ensures IsHex(b) <==> Rfc3986HexDigit(b)
    {
      if '0' as int <= b <= '9' as int {
        assert digits[b - '0' as int] == b as char;
      } else if 'A' as int <= b <= 'F' as int {
        assert digits[b - 'A' as int + 10] == b as char;
      } else if 'a' as int <= b <= 'f' as int {
        assert digits[b - 'a' as int + 16] == b as char;
      }
    }
  }

  lemma {:induction false} NormalIsRfc3986(s: Bytes)
    requires NormalForm(s)
    ensures Rfc3986Path(s)
    ensures '?' as int !in s && '#' as int !in s
  {
    hide Rfc3986Escape, IsHex, IsUriPchar;
    TripletIsEscape(s);
    if s != [] {
      PcharIsRfc3986(s[0]);
      var k := if Triplet(s) then 3 else 1;
      NormalIsRfc3986(s[k..]);
      assert s == s[..k] + s[k..];
      assert '?' as int !in s[..k] && '#' as int !in s[..k];
    }
  }

  // ---- Encoding respects components ----

  lemma JoinValid(a: Bytes, b: Bytes)
    requires Valid(a) && Valid(b)
    ensures Valid(a + [SLASH] + b)
  {
    AsciiValid([SLASH]);
    ValidConcat(a, [SLASH]);
    ValidConcat(a + [SLASH], b);
  }

  lemma Associate4(a: Bytes, b: Bytes, c: Bytes, d: Bytes)
    ensures a + (b + c + d) == a + b + c + d
  {
  }

  lemma EncodeJoinTriplet(a: Bytes, b: Bytes)
    requires Valid(a) && Triplet(a) && Valid(a[3..]) && Valid(b)
    requires Valid(a + [SLASH] + b) && Valid(a[3..] + [SLASH] + b)
    requires UriEncode(a[3..] + [SLASH] + b) == UriEncode(a[3..]) + [SLASH] + UriEncode(b)
    ensures UriEncode(a + [SLASH] + b) == UriEncode(a) + [SLASH] + UriEncode(b)
  {
    hide UriEncode, Valid, ScalarLen;
    var text := a + [SLASH] + b;
    assert text[3..] == a[3..] + [SLASH] + b && text[..3] == a[..3];
    EncodeTriplet(text);
    EncodeTriplet(a);
    Associate4(a[..3], UriEncode(a[3..]), [SLASH], UriEncode(b));
  }

  /** A slash after the text neither completes a triplet nor extends its first scalar. */
  lemma JoinFront(a: Bytes, b: Bytes)
    requires a != [] && ScalarLen(a) > 0 && !Triplet(a)
    ensures var text := a + [SLASH] + b;
            var n := ScalarLen(a);
            && ScalarLen(text) == n && !Triplet(text)
            && text[n..] == a[n..] + [SLASH] + b && text[..n] == a[..n]
  {
    assert a + [SLASH] + b == a + ([SLASH] + b);
    ScalarPrefix(a, [SLASH] + b);
  }

  lemma EncodeJoinStep(a: Bytes, b: Bytes)
    requires Valid(a) && a != [] && !Triplet(a)
    requires Valid(a + [SLASH] + b) && Valid(b)
    requires var rest := a[ScalarLen(a)..];
             && Valid(rest + [SLASH] + b)
             && UriEncode(rest + [SLASH] + b) == UriEncode(rest) + [SLASH] + UriEncode(b)
    ensures UriEncode(a + [SLASH] + b) == UriEncode(a) + [SLASH] + UriEncode(b)
  {
    hide UriEncode, Valid;
    var n := ScalarLen(a);
    EncodeStep(a);
    JoinFront(a, b);
    EncodeStep(a + [SLASH] + b);
    EncodeStep(a);
    Associate4(UriScalar(a[..n]), UriEncode(a[n..]), [SLASH], UriEncode(b));
  }

  lemma {:induction false} EncodeJoin(a: Bytes, b: Bytes)
    requires Valid(a) && Valid(b)
    ensures Valid(a + [SLASH] + b)
    ensures UriEncode(a + [SLASH] + b) == UriEncode(a) + [SLASH] + UriEncode(b)
    decreases |a|
  {
    JoinValid(a, b);
    if a == [] {
      EncodeStep(a + [SLASH] + b);
      assert (a + [SLASH] + b)[1..] == b;
    } else if Triplet(a) {
      TripletStep(a);
      EncodeJoin(a[3..], b);
      EncodeJoinTriplet(a, b);
    } else {
      EncodeJoin(a[ScalarLen(a)..], b);
      EncodeJoinStep(a, b);
    }
  }

  lemma {:induction false} EncodeSlashFree(text: Bytes)
    requires Valid(text) && SLASH !in text
    ensures SLASH !in UriEncode(text)
    decreases |text|
  {
    if text != [] {
      if Triplet(text) {
        TripletStep(text);
        EncodeSlashFree(text[3..]);
      } else {
        var n := ScalarLen(text);
        EncodeSlashFree(text[n..]);
        EscapeAllOpaque(text[..n], SLASH);
      }
    }
  }

  function EncodeEach(parts: seq<Bytes>): (encoded: seq<Bytes>)
    requires forall i :: 0 <= i < |parts| ==> Valid(parts[i])
    ensures |encoded| == |parts|
    ensures forall i :: 0 <= i < |parts| ==> encoded[i] == UriEncode(parts[i])
  {
    seq(|parts|, i requires 0 <= i < |parts| => UriEncode(parts[i]))
  }

  /** Encoding a path encodes its components and nothing across their borders. */
  lemma {:induction false} EncodeComponents(parts: seq<Bytes>)
    requires |parts| >= 1 && SlashFree(parts)
    requires forall i :: 0 <= i < |parts| ==> Valid(parts[i])
    ensures Valid(Join(parts))
    ensures UriEncode(Join(parts)) == Join(EncodeEach(parts))
    ensures Split(UriEncode(Join(parts))) == EncodeEach(parts)
  {
    var encoded := EncodeEach(parts);
    if |parts| > 1 {
      EncodeComponents(parts[1..]);
      EncodeJoin(parts[0], Join(parts[1..]));
      assert encoded[1..] == EncodeEach(parts[1..]);
    }
    forall i | 0 <= i < |parts|
      ensures SLASH !in encoded[i]
    {
      EncodeSlashFree(parts[i]);
    }
    SplitJoin(encoded);
  }

  // ---- Round trip and unique spelling ----

  /** The canonical text of some acceptable native bytes. */
  predicate CanonicalComponent(c: Bytes, windows: bool) {
    Acceptable(c, windows) && c == Canonical(PercentDecode(c).value)
  }

  predicate CanonicalPath(text: Bytes, windows: bool) {
    forall i :: 0 <= i < |Split(text)| ==> CanonicalComponent(Split(text)[i], windows)
  }

  lemma CanonicalOfBytes(bytes: Bytes, windows: bool)
    requires ComponentBytes(bytes, windows)
    ensures CanonicalComponent(Canonical(bytes), windows)
    ensures PercentDecode(Canonical(bytes)) == Some(bytes)
  {
    DecodeCanonical(bytes);
  }

  lemma DecodeIsCanonical(raw: Bytes, windows: bool)
    requires DecodedText(raw, windows).Ok?
    ensures CanonicalPath(DecodedText(raw, windows).value, windows)
  {
    DecodeExact(raw, windows);
    var parts := Split(DecodedText(raw, windows).value);
    forall i | 0 <= i < |parts|
      ensures CanonicalComponent(parts[i], windows)
    {
      assert Acceptable(Split(raw)[i], windows);
      CanonicalOfBytes(PercentDecode(Split(raw)[i]).value, windows);
    }
  }

  lemma CanonicalComponentRoundTrip(c: Bytes, windows: bool)
    requires CanonicalComponent(c, windows)
    ensures Valid(c)
    ensures PercentDecode(UriEncode(c)) == PercentDecode(c)
    ensures DecodedComponent(UriEncode(c), windows) == Ok(c)
  {
    CanonicalValid(PercentDecode(c).value);
    EncodeKeepsBytes(c);
    LenientIsStrict(c);
    ComponentExact(UriEncode(c), windows);
  }

  lemma {:induction false} DecodeEach(encoded: seq<Bytes>, parts: seq<Bytes>, windows: bool)
    requires |encoded| == |parts|
    requires forall i :: 0 <= i < |parts| ==> DecodedComponent(encoded[i], windows) == Ok(parts[i])
    ensures DecodedComponents(encoded, windows) == Ok(parts)
  {
    if parts != [] {
      DecodeEach(encoded[1..], parts[1..], windows);
      assert parts == [parts[0]] + parts[1..];
    }
  }

  /** Decoding the URI spelling of a canonical path gives exactly that path. */
  lemma CanonicalRoundTrip(text: Bytes, windows: bool)
    requires CanonicalPath(text, windows)
    ensures Valid(text)
    ensures |Split(UriEncode(text))| == |Split(text)|
    ensures forall i :: 0 <= i < |Split(text)| ==>
              PercentDecode(Split(UriEncode(text))[i]) == PercentDecode(Split(text)[i])
    ensures DecodedText(UriEncode(text), windows) == Ok(text)
  {
    var parts := Split(text);
    forall i | 0 <= i < |parts|
      ensures Valid(parts[i])
      ensures PercentDecode(UriEncode(parts[i])) == PercentDecode(parts[i])
      ensures DecodedComponent(UriEncode(parts[i]), windows) == Ok(parts[i])
    {
      assert CanonicalComponent(parts[i], windows);
      CanonicalComponentRoundTrip(parts[i], windows);
    }
    SplitSlashFree(text);
    JoinSplit(text);
    EncodeComponents(parts);
    DecodeEach(EncodeEach(parts), parts, windows);
  }

  /** Canonical paths are exactly the raw paths that decoding leaves unchanged. */
  lemma DecoderFixedPoints(text: Bytes, windows: bool)
    ensures DecodedText(text, windows) == Ok(text) <==> CanonicalPath(text, windows)
  {
    if CanonicalPath(text, windows) {
      var parts := Split(text);
      forall i | 0 <= i < |parts|
        ensures DecodedComponent(parts[i], windows) == Ok(parts[i])
      {
        assert CanonicalComponent(parts[i], windows);
        ComponentExact(parts[i], windows);
      }
      DecodeEach(parts, parts, windows);
      JoinSplit(text);
    } else if DecodedText(text, windows) == Ok(text) {
      DecodeIsCanonical(text, windows);
    }
  }

  /** Every accepted raw path survives re-encoding and decoding unchanged. */
  lemma RoundTrip(raw: Bytes, windows: bool)
    requires DecodedText(raw, windows).Ok?
    ensures var text := DecodedText(raw, windows).value;
            Valid(text) && DecodedText(UriEncode(text), windows) == Ok(text)
  {
    DecodeIsCanonical(raw, windows);
    CanonicalRoundTrip(DecodedText(raw, windows).value, windows);
  }

  /** The texts that come back from their own URI spelling are exactly the canonical ones. */
  lemma RoundTripExact(text: Bytes, windows: bool)
    requires Valid(text)
    ensures DecodedText(UriEncode(text), windows) == Ok(text) <==> CanonicalPath(text, windows)
  {
    if CanonicalPath(text, windows) {
      CanonicalRoundTrip(text, windows);
    } else if DecodedText(UriEncode(text), windows) == Ok(text) {
      DecodeIsCanonical(UriEncode(text), windows);
    }
  }

  /** The canonical texts of what the components of an accepted raw path name. */
  ghost function CanonicalParts(raw: Bytes, windows: bool): seq<Bytes>
    requires AllAcceptable(Split(raw), windows)
  {
    var parts := Split(raw);
    seq(|parts|, i requires 0 <= i < |parts| =>
      assert Acceptable(parts[i], windows);
      Canonical(PercentDecode(parts[i]).value))
  }

  /** An accepted raw path decodes to what its components name, joined by slashes. */
  lemma DecodedNames(raw: Bytes, windows: bool)
    requires AllAcceptable(Split(raw), windows)
    ensures DecodedText(raw, windows) == Ok(Join(CanonicalParts(raw, windows)))
    ensures Valid(Join(CanonicalParts(raw, windows)))
  {
    DecodeExact(raw, windows);
    var text := DecodedText(raw, windows).value;
    assert Split(text) == CanonicalParts(raw, windows);
    JoinSplit(text);
    RoundTrip(raw, windows);
  }

  /** The path of the canonical URI a raw path resolves to, before `Path::parse`. */
  function CanonicalSpelling(raw: Bytes, windows: bool): Result<Bytes, UriPathError> {
    match DecodedText(raw, windows)
    case Err(e) => Err(e)
    case Ok(text) =>
      RoundTrip(raw, windows);
      Ok(UriEncode(text))
  }

  /** Component by component, both raw paths name the same native bytes. */
  ghost predicate SameNames(raw1: Bytes, raw2: Bytes) {
    && |Split(raw1)| == |Split(raw2)|
    && forall i :: 0 <= i < |Split(raw1)| ==> PercentDecode(Split(raw1)[i]) == PercentDecode(Split(raw2)[i])
  }

  lemma SameTextSameNames(raw1: Bytes, raw2: Bytes, windows: bool)
    requires DecodedText(raw1, windows).Ok? && DecodedText(raw1, windows) == DecodedText(raw2, windows)
    ensures SameNames(raw1, raw2)
  {
    DecodeExact(raw1, windows);
    DecodeExact(raw2, windows);
    var parts := Split(DecodedText(raw1, windows).value);
    forall i | 0 <= i < |Split(raw1)|
      ensures PercentDecode(Split(raw1)[i]) == PercentDecode(Split(raw2)[i])
    {
      assert Acceptable(Split(raw1)[i], windows) && Acceptable(Split(raw2)[i], windows);
      var bytes1, bytes2 := PercentDecode(Split(raw1)[i]).value, PercentDecode(Split(raw2)[i]).value;
      assert parts[i] == Canonical(bytes1) && parts[i] == Canonical(bytes2);
      CanonicalInjective(bytes1, bytes2);
    }
  }

  lemma SameNamesSameText(raw1: Bytes, raw2: Bytes, windows: bool)
    requires DecodedText(raw1, windows).Ok? && DecodedText(raw2, windows).Ok?
    requires SameNames(raw1, raw2)
    ensures DecodedText(raw1, windows) == DecodedText(raw2, windows)
  {
    DecodeExact(raw1, windows);
    DecodeExact(raw2, windows);
    var text1, text2 := DecodedText(raw1, windows).value, DecodedText(raw2, windows).value;
    assert Split(text1) == Split(text2);
    JoinSplit(text1);
    JoinSplit(text2);
  }

  /**
   * Two accepted raw paths get the same canonical URI path exactly when they have
   * the same number of components and name equal native bytes in each.
   */
  lemma UniqueSpelling(raw1: Bytes, raw2: Bytes, windows: bool)
    requires DecodedText(raw1, windows).Ok? && DecodedText(raw2, windows).Ok?
    ensures CanonicalSpelling(raw1, windows) == CanonicalSpelling(raw2, windows) <==> SameNames(raw1, raw2)
  {
    RoundTrip(raw1, windows);
    RoundTrip(raw2, windows);
    if CanonicalSpelling(raw1, windows) == CanonicalSpelling(raw2, windows) {
      SameTextSameNames(raw1, raw2, windows);
    }
    if SameNames(raw1, raw2) {
      SameNamesSameText(raw1, raw2, windows);
    }
  }
}
