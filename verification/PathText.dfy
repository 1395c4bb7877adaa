/** Byte texts and their division into slash-separated components. */
module PathText {

  type Byte = b: int | 0 <= b < 256

  type Bytes = seq<Byte>

  datatype Option<+T> = None | Some(value: T)

  datatype Result<+T, +E> = Ok(value: T) | Err(error: E)

  const SLASH: Byte := '/' as int
  const PERCENT: Byte := '%' as int

  lemma Associate(a: Bytes, b: Bytes, c: Bytes)
    ensures a + b + c == a + (b + c)
  {
  }

  ghost predicate SlashFree(parts: seq<Bytes>) {
    forall i :: 0 <= i < |parts| ==> SLASH !in parts[i]
  }

  /** The components of `str::split('/')`: always at least one, possibly empty. */
  function Split(text: Bytes): (parts: seq<Bytes>)
    ensures |parts| >= 1
  {
    if text == [] then [[]]
    else
      var rest := Split(text[1..]);
      if text[0] == SLASH then [[]] + rest
      else [[text[0]] + rest[0]] + rest[1..]
  }

  function Join(parts: seq<Bytes>): Bytes {
    if |parts| == 0 then []
    else if |parts| == 1 then parts[0]
    else parts[0] + [SLASH] + Join(parts[1..])
  }

  lemma {:induction false} SplitSlashFree(text: Bytes)
    ensures SlashFree(Split(text))
  {
    if text != [] {
      SplitSlashFree(text[1..]);
    }
  }

  lemma {:induction false} JoinSplit(text: Bytes)
    ensures Join(Split(text)) == text
  {
    if text != [] {
      JoinSplit(text[1..]);
      var rest := Split(text[1..]);
      var parts := Split(text);
      if text[0] == SLASH {
        assert parts[1..] == rest;
      } else if |rest| > 1 {
        assert parts[1..] == rest[1..];
      }
    }
  }

  lemma {:induction false} SplitOne(part: Bytes)
    requires SLASH !in part
    ensures Split(part) == [part]
  {
    if part != [] {
      SplitOne(part[1..]);
      assert part == [part[0]] + part[1..];
    }
  }

  lemma {:induction false} SplitCons(part: Bytes, rest: Bytes)
    requires SLASH !in part
    ensures Split(part + [SLASH] + rest) == [part] + Split(rest)
  {
    var text := part + [SLASH] + rest;
    if part == [] {
      assert text[1..] == rest;
    } else {
      SplitCons(part[1..], rest);
      assert text[1..] == part[1..] + [SLASH] + rest;
      assert part == [part[0]] + part[1..];
    }
  }

  /** Splitting recovers exactly the components that were joined. */
  lemma {:induction false} SplitJoin(parts: seq<Bytes>)
    requires |parts| >= 1 && SlashFree(parts)
    ensures Split(Join(parts)) == parts
  {
    if |parts| == 1 {
      SplitOne(parts[0]);
    } else {
      SplitJoin(parts[1..]);
      SplitCons(parts[0], Join(parts[1..]));
    }
  }

  lemma {:induction false} JoinSnoc(parts: seq<Bytes>, last: Bytes)
    requires |parts| >= 1
    ensures Join(parts + [last]) == Join(parts) + [SLASH] + last
  {
    if |parts| > 1 {
      JoinSnoc(parts[1..], last);
      assert (parts + [last])[1..] == parts[1..] + [last];
    } else {
      assert (parts + [last])[1..] == [last];
    }
  }
}
