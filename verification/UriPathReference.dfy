/**
 * The path codec checked against references that share none of its definitions:
 * digit tables, code points, the grammar of RFC 3986 and every way of spelling bytes.
 */
module UriPathReference {
  import opened PathText
  import opened Utf8
  import opened UriPathCodec
  import opened UriPathLaws

  // ---- Hexadecimal digits and triplets ----

  const UPPER := "0123456789ABCDEF"
  const LOWER := "0123456789abcdef"

  function Digit(n: nat, upper: bool): Byte
    requires n < 16
  {
    if upper then UPPER[n] as int else LOWER[n] as int
  }

  /** Both cases of a digit have its value, and no other byte has one. */
  lemma HexValueExact(b: Byte, v: nat)
    ensures HexValue(b) == Some(v) <==> v < 16 && (b == Digit(v, true) || b == Digit(v, false))
  {
  }

  function UpperTriplet(b: Byte): Bytes {
    ['%' as int, Digit(b / 16, true), Digit(b % 16, true)]
  }

  function UpperTriplets(bytes: Bytes): (s: Bytes)
    ensures |s| == 3 * |bytes|
  {
    if bytes == [] then [] else UpperTriplet(bytes[0]) + UpperTriplets(bytes[1..])
  }

  lemma {:induction false} EscapesAreUpper(bytes: Bytes)
    ensures EscapeAll(bytes) == UpperTriplets(bytes)
  {
    if bytes != [] {
      EscapesAreUpper(bytes[1..]);
      HexTable(bytes[0] / 16);
      HexTable(bytes[0] % 16);
    }
  }

  // ---- Percent-decoding: every spelling of the bytes, and nothing else ----

  /** How one byte is written: as it is, or as a triplet with digits in either case. */
  datatype Written = Plain | Escaped(highUpper: bool, lowUpper: bool)

  function Spelled(b: Byte, how: Written): Bytes {
    match how
    case Plain => [b]
    case Escaped(high, low) => ['%' as int, Digit(b / 16, high), Digit(b % 16, low)]
  }

  function Spelling(bytes: Bytes, how: seq<Written>): Bytes
    requires |bytes| == |how|
  {
    if bytes == [] then [] else Spelled(bytes[0], how[0]) + Spelling(bytes[1..], how[1..])
  }

  /** The text writes these bytes in this way; only a percent sign cannot stand for itself. */
  ghost predicate Spells(text: Bytes, bytes: Bytes, how: seq<Written>) {
    && |bytes| == |how|
    && (forall i :: 0 <= i < |bytes| ==> bytes[i] == '%' as int ==> how[i].Escaped?)
    && text == Spelling(bytes, how)
  }

  lemma DecodeSpelled(b: Byte, how: Written, rest: Bytes)
    requires b == '%' as int ==> how.Escaped?
    ensures PercentDecode(Spelled(b, how) + rest) == Prepend([b], PercentDecode(rest))
  {
    var text := Spelled(b, how) + rest;
    assert text[|Spelled(b, how)|..] == rest;
    if how.Escaped? {
      HexValueExact(text[1], b / 16);
      HexValueExact(text[2], b % 16);
    }
  }

  lemma {:induction false} DecodeSpelling(text: Bytes, bytes: Bytes, how: seq<Written>)
    requires Spells(text, bytes, how)
    ensures PercentDecode(text) == Some(bytes)
    decreases |bytes|
  {
    if bytes != [] {
      hide PercentDecode, Spelled;
      var rest := Spelling(bytes[1..], how[1..]);
      DecodeSpelling(rest, bytes[1..], how[1..]);
      DecodeSpelled(bytes[0], how[0], rest);
      assert bytes == [bytes[0]] + bytes[1..];
    }
  }

  lemma {:induction false} SpellingOf(text: Bytes) returns (how: seq<Written>)
    requires PercentDecode(text).Some?
    ensures Spells(text, PercentDecode(text).value, how)
  {
    if text == [] {
      return [];
    }
    var bytes := PercentDecode(text).value;
    var first, k := Plain, 1;
    if text[0] == PERCENT {
      var high, low := HexValue(text[1]).value, HexValue(text[2]).value;
      HexValueExact(text[1], high);
      HexValueExact(text[2], low);
      first, k := Escaped(text[1] == Digit(high, true), text[2] == Digit(low, true)), 3;
      assert bytes[0] / 16 == high && bytes[0] % 16 == low;
      assert text[..3] == Spelled(bytes[0], first);
    }
    var rest := SpellingOf(text[k..]);
    how := [first] + rest;
    assert bytes[1..] == PercentDecode(text[k..]).value && how[1..] == rest;
    assert text == text[..k] + text[k..];
  }

  /**
   * The codec decodes a component to some bytes exactly when they hold no NUL and the
   * component spells them, each byte plainly or as a triplet in any mixture of cases.
   */
  lemma DecodedBytesExact(component: Bytes, bytes: Bytes)
    ensures DecodedBytes(component) == Ok(bytes) <==> 0 !in bytes && exists how :: Spells(component, bytes, how)
  {
    if DecodedBytes(component) == Ok(bytes) {
      var how := SpellingOf(component);
      assert Spells(component, bytes, how);
    }
    if how :| Spells(component, bytes, how) {
      DecodeSpelling(component, bytes, how);
    }
  }

  // ---- Canonical text: escaped are the percent sign, controls and stray bytes ----

  /** The percent sign and the control characters by code point. */
  predicate MustEscape(cp: int) {
    cp == 0x25 || cp <= 0x1F || 0x7F <= cp <= 0x9F
  }

  function CodePointText(cp: int): Bytes
    requires ScalarValue(cp)
  {
    if MustEscape(cp) then UpperTriplets(EncodeScalar(cp)) else EncodeScalar(cp)
  }

  lemma ScalarTextExact(s: Bytes)
    requires Scalar(s)
    ensures ScalarText(s) == CodePointText(CodePoint(s))
  {
    EscapesAreUpper(s);
    EncodingOfCodePoint(s);
    ControlsByCodePoint(s);
    assert s == [PERCENT] <==> CodePoint(s) == 0x25;
  }

  /**
   * These equations determine canonical text: a code point encoded here is copied
   * unless it is a percent sign or a control, and a byte no code point starts at is
   * escaped alone.
   */
  lemma CanonicalReference(s: Bytes, cp: int)
    ensures Canonical([]) == []
    ensures StartsWith(s, cp) ==> Canonical(s) == CodePointText(cp) + Canonical(s[|EncodeScalar(cp)|..])
    ensures s != [] && !(exists c :: StartsWith(s, c)) ==> Canonical(s) == UpperTriplet(s[0]) + Canonical(s[1..])
  {
    hide Canonical, ScalarText, EncodeScalar;
    CanonicalNil();
    FrontByCodePoint(s);
    if StartsWith(s, cp) {
      StartIsFront(s, cp);
      ScalarTextExact(s[..ScalarLen(s)]);
      CanonicalFront(s);
    } else if s != [] && ScalarLen(s) == 0 {
      CanonicalByte(s);
      HexTable(s[0] / 16);
      HexTable(s[0] % 16);
    }
  }

  /** On one scalar: its triplets for a percent sign or a control, itself otherwise. */
  lemma CanonicalOfScalar(s: Bytes)
    requires Scalar(s)
    ensures Canonical(s) == if MustEscape(CodePoint(s)) then UpperTriplets(s) else s
  {
    EncodingOfCodePoint(s);
    CanonicalReference(s, CodePoint(s));
    assert s[|s|..] == [];
    CanonicalReference(s[|s|..], CodePoint(s));
    assert CodePointText(CodePoint(s)) + [] == CodePointText(CodePoint(s));
  }

  ghost function TextOf(cps: seq<int>): Bytes
    requires ScalarValues(cps)
  {
    if cps == [] then [] else CodePointText(cps[0]) + TextOf(cps[1..])
  }

  lemma {:induction false} CanonicalOfText(cps: seq<int>)
    requires ScalarValues(cps)
    ensures Canonical(EncodeText(cps)) == TextOf(cps)
  {
    hide Canonical, CodePointText, EncodeScalar;
    if cps == [] {
      CanonicalNil();
    } else {
      var s := EncodeText(cps);
      CanonicalOfText(cps[1..]);
      assert StartsWith(s, cps[0]);
      assert s[|EncodeScalar(cps[0])|..] == EncodeText(cps[1..]);
      CanonicalReference(s, cps[0]);
    }
  }

  lemma {:induction false} TextFixed(cps: seq<int>)
    requires ScalarValues(cps)
    ensures |TextOf(cps)| >= |EncodeText(cps)|
    ensures TextOf(cps) == EncodeText(cps) <==> forall i :: 0 <= i < |cps| ==> !MustEscape(cps[i])
  {
    if cps != [] {
      hide EncodeScalar, MustEscape;
      var first, rest := cps[0], cps[1..];
      TextFixed(rest);
      assert |EncodeScalar(first)| > 0 by {
        CodePointOfEncoding(first);
      }
      assert forall i :: 1 <= i < |cps| ==> cps[i] == rest[i - 1];
      if MustEscape(first) {
        assert |TextOf(cps)| > |EncodeText(cps)|;
      } else {
        var k := |EncodeScalar(first)|;
        assert TextOf(cps)[k..] == TextOf(rest) && EncodeText(cps)[k..] == EncodeText(rest);
        assert TextOf(cps)[..k] == EncodeText(cps)[..k];
        if forall i :: 0 <= i < |rest| ==> !MustEscape(rest[i]) {
          assert forall i :: 0 <= i < |cps| ==> !MustEscape(cps[i]);
        }
      }
    }
  }

  /** A valid text is its own canonical text exactly when nothing in it must be escaped. */
  lemma CanonicalFixedPoints(text: Bytes)
    requires Valid(text)
    ensures Canonical(text) == text <==>
              forall i :: 0 <= i < |CodePoints(text)| ==> !MustEscape(CodePoints(text)[i])
  {
    var cps := CodePoints(text);
    TextOfCodePoints(text);
    CanonicalOfText(cps);
    TextFixed(cps);
  }

  // ---- The unescaped set of the URI spelling ----

  /** `=` is the one path character of RFC 3986 that the codec escapes. */
  lemma PcharExact(b: Byte)
    ensures IsUriPchar(b) <==> Rfc3986Pchar(b) && b != '=' as int
  {
  }

  predicate KeptInPath(b: int) {
    0 <= b < 256 && (b == '/' as int || (Rfc3986Pchar(b) && b != '=' as int))
  }

  function UriSpelling(cp: int): Bytes
    requires ScalarValue(cp)
  {
    if KeptInPath(cp) then [cp] else UpperTriplets(EncodeScalar(cp))
  }

  lemma UriScalarExact(s: Bytes)
    requires Scalar(s)
    ensures UriScalar(s) == UriSpelling(CodePoint(s))
  {
    EscapesAreUpper(s);
    EncodingOfCodePoint(s);
    ScalarInner(s);
    PcharExact(s[0]);
    if |s| > 1 {
      assert CodePoint(s) >= 0x80;
    }
  }

  /**
   * These equations determine the URI spelling: an escape is copied, and any other
   * code point stands for itself if a path may hold it, else is escaped bytewise.
   */
  lemma EncodeReference(text: Bytes, cp: int)
    requires Valid(text)
    ensures Valid([]) && UriEncode([]) == []
    ensures Rfc3986Escape(text) ==> Valid(text[3..]) && UriEncode(text) == text[..3] + UriEncode(text[3..])
    ensures !Rfc3986Escape(text) && StartsWith(text, cp) ==>
              var n := |EncodeScalar(cp)|;
              Valid(text[n..]) && UriEncode(text) == UriSpelling(cp) + UriEncode(text[n..])
  {
    hide Valid, UriEncode, UriScalar, EncodeScalar, Triplet, Rfc3986Escape;
    EncodeNil();
    TripletIsEscape(text);
    if Triplet(text) {
      EncodeTriplet(text);
    } else if StartsWith(text, cp) {
      StartIsFront(text, cp);
      UriScalarExact(text[..ScalarLen(text)]);
      EncodeStep(text);
    }
  }

  /** Slashes, path characters but `=`, and escapes. */
  predicate UriPathText(s: Bytes) {
    || s == []
    || (if Rfc3986Escape(s) then UriPathText(s[3..]) else KeptInPath(s[0]) && UriPathText(s[1..]))
  }

  lemma {:induction false} NormalExact(s: Bytes)
    ensures NormalForm(s) <==> UriPathText(s)
  {
    hide IsUriPchar, Rfc3986Pchar, Rfc3986Escape, Triplet;
    TripletIsEscape(s);
    if s != [] {
      PcharExact(s[0]);
      if Triplet(s) {
        NormalExact(s[3..]);
      } else {
        NormalExact(s[1..]);
      }
    }
  }

  /** The encoder leaves alone exactly the texts of slashes, such characters and escapes. */
  lemma EncoderLeavesAlone(text: Bytes)
    requires Valid(text)
    ensures UriEncode(text) == text <==> UriPathText(text)
  {
    EncoderFixedPoints(text);
    NormalExact(text);
  }
}
