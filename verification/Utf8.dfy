/** UTF-8 as fixed by section 4 of RFC 3629, and the error positions of `str::from_utf8`. */
module Utf8 {
  import opened PathText

  predicate Tail(b: Byte) {
    0x80 <= b <= 0xBF
  }

  /** Number of bytes announced by a lead byte; 0 when no scalar starts with it. */
  function Width(lead: Byte): (n: nat)
    ensures n <= 4
  {
    if lead <= 0x7F then 1
    else if 0xC2 <= lead <= 0xDF then 2
    else if 0xE0 <= lead <= 0xEF then 3
    else if 0xF0 <= lead <= 0xF4 then 4
    else 0
  }

  /** The second byte excludes overlong forms, surrogates and values above U+10FFFF. */
  predicate Second(lead: Byte, b: Byte) {
    && Tail(b)
    && (lead == 0xE0 ==> 0xA0 <= b)
    && (lead == 0xED ==> b <= 0x9F)
    && (lead == 0xF0 ==> 0x90 <= b)
    && (lead == 0xF4 ==> b <= 0x8F)
  }

  /** Length of the scalar encoded at the front of `s`; 0 when none starts there. */
  function ScalarLen(s: Bytes): (n: nat)
    ensures n <= 4 && n <= |s|
    ensures n > 0 ==> n == Width(s[0])
  {
    if s == [] then 0
    else
      var w := Width(s[0]);
      if |s| < w then 0
      else if w >= 2 && !Second(s[0], s[1]) then 0
      else if w >= 3 && !Tail(s[2]) then 0
      else if w == 4 && !Tail(s[3]) then 0
      else w
  }

  predicate Valid(s: Bytes) {
    s == [] || (ScalarLen(s) > 0 && Valid(s[ScalarLen(s)..]))
  }

  /** Exactly one scalar. */
  predicate Scalar(s: Bytes) {
    |s| > 0 && ScalarLen(s) == |s|
  }

  /**
   * `Utf8Error::error_len` at a position where no scalar starts: `None` when the
   * text ends inside a sequence that was correct so far.
   */
  function ErrorLen(s: Bytes): (len: Option<nat>)
    requires s != [] && ScalarLen(s) == 0
    ensures len.Some? ==> 1 <= len.value <= 3 && len.value <= |s|
  {
    var w := Width(s[0]);
    if w == 0 then Some(1)
    else if |s| < 2 then None
    else if !Second(s[0], s[1]) then Some(1)
    else if |s| < 3 then None
    else if !Tail(s[2]) then Some(2)
    else if |s| < 4 then None
    else Some(3)
  }

  datatype Decoding = Whole | Broken(validUpTo: nat, errorLen: Option<nat>)

  /** What follows a complete scalar does not change where it ends. */
  lemma ScalarPrefix(s: Bytes, rest: Bytes)
    ensures ScalarLen(s) > 0 ==> ScalarLen(s + rest) == ScalarLen(s)
    ensures |s| > 0 && ScalarLen(s + rest) == |s| ==> Scalar(s)
  {
    if s != [] {
      var t := s + rest;
      assert t[0] == s[0];
      assert |s| > 1 ==> t[1] == s[1];
      assert |s| > 2 ==> t[2] == s[2];
      assert |s| > 3 ==> t[3] == s[3];
    }
  }

  lemma FrontIsScalar(s: Bytes)
    requires ScalarLen(s) > 0
    ensures Scalar(s[..ScalarLen(s)])
  {
    var n := ScalarLen(s);
    assert s[..n] + s[n..] == s;
    ScalarPrefix(s[..n], s[n..]);
  }

  /** A valid stretch after the first scalar extends that scalar. */
  lemma ExtendFront(s: Bytes, n: nat, up: nat)
    requires n > 0 && n == ScalarLen(s) && n + up <= |s|
    requires Valid(s[n..][..up])
    ensures s[n..][up..] == s[n + up..]
    ensures Valid(s[..n + up])
  {
    var stretch := s[..n + up];
    FrontIsScalar(s);
    assert stretch[n..] == s[n..][..up] && stretch[..n] == s[..n];
    assert stretch == stretch[..n] + stretch[n..];
    ScalarPrefix(stretch[..n], stretch[n..]);
  }

  /** `str::from_utf8`: the whole text, or where and how it first fails. */
  function FromUtf8(s: Bytes): (d: Decoding)
    ensures d.Whole? <==> Valid(s)
    ensures d.Broken? ==>
              && d.validUpTo < |s|
              && Valid(s[..d.validUpTo])
              && ScalarLen(s[d.validUpTo..]) == 0
              && d.errorLen == ErrorLen(s[d.validUpTo..])
  {
    if s == [] then Whole
    else
      var n := ScalarLen(s);
      if n == 0 then Broken(0, ErrorLen(s))
      else
        match FromUtf8(s[n..])
        case Whole => Whole
        case Broken(up, len) =>
          ExtendFront(s, n, up);
          Broken(n + up, len)
  }

  lemma {:induction false} ValidConcat(a: Bytes, b: Bytes)
    requires Valid(a) && Valid(b)
    ensures Valid(a + b)
  {
    if a == [] {
      assert a + b == b;
    } else {
      var n := ScalarLen(a);
      ScalarPrefix(a, b);
      ValidConcat(a[n..], b);
      assert (a + b)[n..] == a[n..] + b;
    }
  }

  lemma {:induction false} AsciiValid(s: Bytes)
    requires forall i :: 0 <= i < |s| ==> s[i] <= 0x7F
    ensures Valid(s)
  {
    if s != [] {
      AsciiValid(s[1..]);
    }
  }

  /** A byte inside a multi-byte scalar is a tail byte, hence never ASCII. */
  lemma ScalarInner(s: Bytes)
    requires Scalar(s)
    ensures |s| > 1 ==> s[0] >= 0xC2 && forall i :: 1 <= i < |s| ==> Tail(s[i])
    ensures |s| == 1 ==> s[0] <= 0x7F
  {
  }

  /**
   * The bytes skipped as one maximal invalid subpart do not hide a scalar: none
   * starts at any of them.
   */
  lemma InvalidSubpart(s: Bytes, k: nat)
    requires s != [] && ScalarLen(s) == 0
    requires ErrorLen(s).Some? && k < ErrorLen(s).value
    ensures ScalarLen(s[k..]) == 0
  {
  }

  function CompletingByte(s: Bytes): Byte
    requires s != []
  {
    if |s| == 1 && s[0] == 0xE0 then 0xA0 else if |s| == 1 && s[0] == 0xF0 then 0x90 else 0x80
  }

  lemma Completable(s: Bytes)
    requires s != [] && ScalarLen(s) == 0 && ErrorLen(s).None?
    ensures exists rest :: Scalar(s + rest)
    decreases 4 - |s|
  {
    var longer := s + [CompletingByte(s)];
    if ScalarLen(longer) > 0 {
      assert Scalar(longer);
    } else {
      Completable(longer);
      var rest :| Scalar(longer + rest);
      assert longer + rest == s + ([CompletingByte(s)] + rest);
    }
  }

  /**
   * The length of an error is unknown exactly when the text stops inside a
   * sequence that some further bytes would complete to a scalar.
   */
  lemma ErrorLenUnknown(s: Bytes)
    requires s != [] && ScalarLen(s) == 0
    ensures ErrorLen(s).None? <==> exists rest :: Scalar(s + rest)
  {
    if ErrorLen(s).None? {
      Completable(s);
    }
    if rest :| Scalar(s + rest) {
      var whole := s + rest;
      assert whole[0] == s[0] && |whole| == Width(s[0]) && |s| < |whole|;
      assert |s| > 1 ==> whole[1] == s[1];
      assert |s| > 2 ==> whole[2] == s[2];
    }
  }

  // ---- Code points: the reference the byte table is checked against ----

  predicate ScalarValue(cp: int) {
    0 <= cp <= 0x10FFFF && !(0xD800 <= cp <= 0xDFFF)
  }

  /** The six payload bits of a tail byte. */
  function Payload(b: int): int {
    b - 0x80
  }

  function TailByte(bits: int): Byte
    requires 0 <= bits < 64
  {
    0x80 + bits
  }

  /** The encoding of one code point by the bit layout of section 3 of RFC 3629. */
  function EncodeScalar(cp: int): Bytes
    requires ScalarValue(cp)
  {
    var q1, q2, q3 := cp / 64, cp / 64 / 64, cp / 64 / 64 / 64;
    if cp <= 0x7F then [cp]
    else if cp <= 0x7FF then [0xC0 + q1, TailByte(cp % 64)]
    else if cp <= 0xFFFF then [0xE0 + q2, TailByte(q1 % 64), TailByte(cp % 64)]
    else [0xF0 + q3, TailByte(q2 % 64), TailByte(q1 % 64), TailByte(cp % 64)]
  }

  function CodePoint(s: Bytes): (cp: int)
    requires Scalar(s)
    ensures ScalarValue(cp)
  {
    var lead: int := s[0];
    if |s| == 1 then lead
    else if |s| == 2 then (lead - 0xC0) * 64 + Payload(s[1])
    else if |s| == 3 then ((lead - 0xE0) * 64 + Payload(s[1])) * 64 + Payload(s[2])
    else (((lead - 0xF0) * 64 + Payload(s[1])) * 64 + Payload(s[2])) * 64 + Payload(s[3])
  }

  lemma Digits64(high: int, low: int)
    requires 0 <= high && 0 <= low < 64
    ensures (high * 64 + low) / 64 == high && (high * 64 + low) % 64 == low
  {
  }

  lemma Recompose64(n: int)
    requires 0 <= n
    ensures n == n / 64 * 64 + n % 64 && 0 <= n % 64 < 64
  {
  }

  lemma EncodingIsScalar(cp: int)
    requires ScalarValue(cp)
    ensures Scalar(EncodeScalar(cp))
  {
    var s := EncodeScalar(cp);
    assert |s| == Width(s[0]);
  }

  /** Every scalar value has a byte sequence the table admits, read back as that value. */
  lemma CodePointOfEncoding(cp: int)
    requires ScalarValue(cp)
    ensures Scalar(EncodeScalar(cp)) && CodePoint(EncodeScalar(cp)) == cp
  {
    Recompose64(cp);
    Recompose64(cp / 64);
    Recompose64(cp / 64 / 64);
    EncodingIsScalar(cp);
  }

  lemma LongEncoding(s: Bytes)
    requires Scalar(s) && |s| >= 3
    ensures EncodeScalar(CodePoint(s)) == s
  {
    var lead := s[0] as int - (if |s| == 3 then 0xE0 else 0xF0);
    var high := lead * 64 + Payload(s[1]);
    Digits64(lead, Payload(s[1]));
    Digits64(high, Payload(s[2]));
    if |s| == 4 {
      Digits64(high * 64 + Payload(s[2]), Payload(s[3]));
    }
  }

  /** Every byte sequence the table admits is the encoding of its code point. */
  lemma EncodingOfCodePoint(s: Bytes)
    requires Scalar(s)
    ensures EncodeScalar(CodePoint(s)) == s
  {
    if |s| == 2 {
      Digits64(s[0] as int - 0xC0, Payload(s[1]));
    } else if |s| == 3 {
      LongEncoding(s);
    } else if |s| == 4 {
      LongEncoding(s);
    }
  }

  // ---- Texts as sequences of code points ----

  /** The text starts with the encoding of this code point. */
  predicate StartsWith(s: Bytes, cp: int) {
    ScalarValue(cp) && EncodeScalar(cp) <= s
  }

  lemma StartIsFront(s: Bytes, cp: int)
    requires StartsWith(s, cp)
    ensures ScalarLen(s) == |EncodeScalar(cp)| > 0
    ensures s[..ScalarLen(s)] == EncodeScalar(cp) && Scalar(s[..ScalarLen(s)])
    ensures CodePoint(s[..ScalarLen(s)]) == cp
  {
    var code := EncodeScalar(cp);
    CodePointOfEncoding(cp);
    assert s == code + s[|code|..];
    ScalarPrefix(code, s[|code|..]);
  }

  /** A scalar stands at the front exactly when some code point is encoded there. */
  lemma FrontByCodePoint(s: Bytes)
    ensures ScalarLen(s) > 0 <==> exists cp :: StartsWith(s, cp)
  {
    if ScalarLen(s) > 0 {
      var front := s[..ScalarLen(s)];
      FrontIsScalar(s);
      EncodingOfCodePoint(front);
      assert StartsWith(s, CodePoint(front));
    }
    if cp :| StartsWith(s, cp) {
      StartIsFront(s, cp);
    }
  }

  ghost predicate ScalarValues(cps: seq<int>) {
    forall i :: 0 <= i < |cps| ==> ScalarValue(cps[i])
  }

  ghost function EncodeText(cps: seq<int>): Bytes
    requires ScalarValues(cps)
  {
    if cps == [] then [] else EncodeScalar(cps[0]) + EncodeText(cps[1..])
  }

  /** The code points a `chars` iterator yields. */
  ghost function CodePoints(s: Bytes): (cps: seq<int>)
    requires Valid(s)
    ensures ScalarValues(cps)
  {
    if s == [] then []
    else
      FrontIsScalar(s);
      [CodePoint(s[..ScalarLen(s)])] + CodePoints(s[ScalarLen(s)..])
  }

  lemma EmptyText()
    ensures Valid([]) && CodePoints([]) == [] && ScalarValues([]) && EncodeText([]) == []
  {
  }

  lemma CodePointsStep(s: Bytes)
    requires Valid(s) && s != []
    ensures var n := ScalarLen(s);
            && n > 0 && Valid(s[n..]) && Scalar(s[..n])
            && CodePoints(s) == [CodePoint(s[..n])] + CodePoints(s[n..])
  {
    FrontIsScalar(s);
  }

  lemma EncodeTextStep(cp: int, cps: seq<int>)
    requires ScalarValue(cp) && ScalarValues(cps)
    ensures ScalarValues([cp] + cps) && EncodeText([cp] + cps) == EncodeScalar(cp) + EncodeText(cps)
  {
    hide EncodeScalar;
    assert ([cp] + cps)[1..] == cps;
  }

  lemma {:induction false} TextOfCodePoints(s: Bytes)
    requires Valid(s)
    ensures EncodeText(CodePoints(s)) == s
  {
    hide *;
    if s == [] {
      EmptyText();
    } else {
      var n := ScalarLen(s);
      CodePointsStep(s);
      EncodingOfCodePoint(s[..n]);
      TextOfCodePoints(s[n..]);
      EncodeTextStep(CodePoint(s[..n]), CodePoints(s[n..]));
      assert s == s[..n] + s[n..];
    }
  }

  /** The valid texts are exactly the encodings of code point sequences. */
  lemma {:induction false} CodePointsOfText(cps: seq<int>)
    requires ScalarValues(cps)
    ensures Valid(EncodeText(cps)) && CodePoints(EncodeText(cps)) == cps
  {
    if cps != [] {
      var s := EncodeText(cps);
      assert StartsWith(s, cps[0]);
      StartIsFront(s, cps[0]);
      CodePointsOfText(cps[1..]);
      assert s[ScalarLen(s)..] == EncodeText(cps[1..]);
      assert cps == [cps[0]] + cps[1..];
    }
  }

  ghost predicate BeginsScalar(s: Bytes) {
    exists rest :: Scalar(s + rest)
  }

  /**
   * An error of known length covers a maximal subpart: more than one byte only if
   * those bytes begin some scalar, and never so many that one more still would.
   */
  lemma ErrorLenMaximal(s: Bytes)
    requires s != [] && ScalarLen(s) == 0 && ErrorLen(s).Some?
    ensures var n := ErrorLen(s).value;
            && (n > 1 ==> BeginsScalar(s[..n]))
            && (n < |s| ==> !BeginsScalar(s[..n + 1]))
  {
    var n := ErrorLen(s).value;
    if n > 1 {
      assert ScalarLen(s[..n]) == 0 && ErrorLen(s[..n]).None?;
      ErrorLenUnknown(s[..n]);
    }
    if n < |s| {
      var longer := s[..n + 1];
      assert ScalarLen(longer) == 0 && ErrorLen(longer).Some?;
      ErrorLenUnknown(longer);
    }
  }
}
