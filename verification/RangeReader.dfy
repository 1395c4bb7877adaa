/** A byte window over one opened file: seek once, then reads against a decreasing allowance. */
module RangeReader {
  import opened PathText

  const I64_MAX: nat := 0x7FFF_FFFF_FFFF_FFFF
  const U64_MAX: nat := 0xFFFF_FFFF_FFFF_FFFF

  type U64 = n: nat | n <= U64_MAX

  function Min(a: nat, b: nat): nat {
    if a <= b then a else b
  }

  /** The bytes a reader of this window is meant to deliver. */
  function Window(content: Bytes, offset: nat, length: Option<nat>): Bytes {
    var start := Min(offset, |content|);
    var end := match length
               case None => |content|
               case Some(n) => Min(offset + n, |content|);
    content[start..if end < start then start else end]
  }

  // ---- Steps ----

  /** Native position and what is left of the allowance. */
  datatype Cursor = Cursor(position: U64, remaining: U64)

  /** The recorded length says that an offset past the native range is past the end. */
  predicate BeyondNativeRange(recorded: U64, offset: U64) {
    offset > I64_MAX && offset >= recorded
  }

  /**
   * Opening seeks only when the window can be non-empty and starts past zero. The
   * recorded length is an observation of its own; the content may differ by now.
   */
  function Opened(recorded: U64, offset: U64, length: Option<U64>, seekSucceeds: bool): Option<Cursor> {
    if length == Some(0) || BeyondNativeRange(recorded, offset) then Some(Cursor(0, 0))
    else if offset != 0 && !seekSucceeds then None
    else Some(Cursor(offset, if length.Some? then length.value else U64_MAX))
  }

  /** The most one native read may return here: the request, the allowance, the file. */
  function Available(content: Bytes, c: Cursor, count: nat): nat {
    Min(Min(count, c.remaining), if c.position <= |content| then |content| - c.position else 0)
  }

  /**
   * A native read returns what it pleases up to that, but zero only when nothing is
   * available; `None` is an I/O error.
   */
  predicate LawfulRead(content: Bytes, c: Cursor, count: nat, taken: Option<nat>) {
    taken.Some? ==>
      && taken.value <= Available(content, c, count)
      && (taken.value == 0 ==> Available(content, c, count) == 0)
  }

  function ReadCursor(content: Bytes, c: Cursor, count: nat, taken: Option<nat>): Cursor
    requires |content| <= U64_MAX && LawfulRead(content, c, count, taken)
  {
    if taken.None? then c else Cursor(c.position + taken.value, c.remaining - taken.value)
  }

  function ReadBytes(content: Bytes, c: Cursor, count: nat, taken: Option<nat>): Bytes
    requires LawfulRead(content, c, count, taken)
  {
    if taken.None? || taken.value == 0 then [] else content[c.position..c.position + taken.value]
  }

  // ---- The adapter ----

  class LocalRangeReader {
    const content: Bytes
    var cursor: Cursor

    constructor (content: Bytes, cursor: Cursor)
      ensures this.content == content && this.cursor == cursor
    {
      this.content, this.cursor := content, cursor;
    }

    static method New(content: Bytes, recorded: U64, offset: U64, length: Option<U64>, seekSucceeds: bool)
      returns (r: Option<LocalRangeReader>)
      ensures var first := Opened(recorded, offset, length, seekSucceeds);
              && (r.Some? <==> first.Some?)
              && (r.Some? ==> fresh(r.value) && r.value.content == content && r.value.cursor == first.value)
    {
      var position: U64 := 0;
      var beyondNativeRange := offset > I64_MAX && offset >= recorded;
      var allowance: U64 := 0;
      if length != Some(0) && !beyondNativeRange {
        if offset != 0 {
          if !seekSucceeds {
            return None;
          }
          position := offset;
        }
        allowance := if length.Some? then length.value else U64_MAX;
      }
      var reader := new LocalRangeReader(content, Cursor(position, allowance));
      return Some(reader);
    }

    /** Fills `output[index..index + n]` and touches no other element. */
    method ReadUnchecked(output: array<Byte>, index: nat, count: nat, taken: Option<nat>) returns (r: Option<nat>)
      requires |content| <= U64_MAX && index + count <= output.Length
      requires LawfulRead(content, cursor, count, taken)
      modifies this, output
      ensures r == taken
      ensures cursor == ReadCursor(content, old(cursor), count, taken)
      ensures var bytes := ReadBytes(content, old(cursor), count, taken);
              output[..] == old(output[..index]) + bytes + old(output[index + |bytes|..])
    {
      if taken.None? {
        return None;
      }
      var n := taken.value;
      ghost var bytes := ReadBytes(content, cursor, count, taken);
      for i := 0 to n
        modifies output
        invariant |bytes| == n
        invariant output[..] == old(output[..index]) + bytes[..i] + old(output[index + i..])
      {
        output[index + i] := content[cursor.position + i];
      }
      cursor := Cursor(cursor.position + n, cursor.remaining - n);
      return taken;
    }
  }

  // ---- Every sequence of reads ----

  datatype Read = Read(count: nat, taken: Option<nat>)

  predicate LawfulReads(content: Bytes, c: Cursor, script: seq<Read>)
    requires |content| <= U64_MAX
    decreases |script|
  {
    script == [] ||
    (var read := script[0];
     && LawfulRead(content, c, read.count, read.taken)
     && LawfulReads(content, ReadCursor(content, c, read.count, read.taken), script[1..]))
  }

  /** The cursor after the reads and everything they delivered. */
  function Deliver(content: Bytes, c: Cursor, script: seq<Read>): (Cursor, Bytes)
    requires |content| <= U64_MAX && LawfulReads(content, c, script)
    decreases |script|
  {
    if script == [] then (c, [])
    else
      var read := script[0];
      var (last, rest) := Deliver(content, ReadCursor(content, c, read.count, read.taken), script[1..]);
      (last, ReadBytes(content, c, read.count, read.taken) + rest)
  }

  /** What a cursor still has to deliver. */
  function Rest(content: Bytes, c: Cursor): Bytes {
    Window(content, c.position, Some(c.remaining))
  }

  lemma ReadThenRest(content: Bytes, c: Cursor, read: Read)
    requires |content| <= U64_MAX && LawfulRead(content, c, read.count, read.taken)
    ensures var next := ReadCursor(content, c, read.count, read.taken);
            ReadBytes(content, c, read.count, read.taken) + Rest(content, next) == Rest(content, c)
  {
  }

  lemma {:induction false} DeliveredThenRest(content: Bytes, c: Cursor, script: seq<Read>)
    requires |content| <= U64_MAX && LawfulReads(content, c, script)
    ensures Deliver(content, c, script).1 + Rest(content, Deliver(content, c, script).0) == Rest(content, c)
    decreases |script|
  {
    if script == [] {
      assert [] + Rest(content, c) == Rest(content, c);
    } else {
      var read := script[0];
      var next := ReadCursor(content, c, read.count, read.taken);
      DeliveredThenRest(content, next, script[1..]);
      ReadThenRest(content, c, read);
      Associate(ReadBytes(content, c, read.count, read.taken), Deliver(content, next, script[1..]).1,
                Rest(content, Deliver(content, next, script[1..]).0));
    }
  }

  /** Position and allowance trade off one for one, and the position counts the bytes. */
  lemma {:induction false} AllowanceConserved(content: Bytes, c: Cursor, script: seq<Read>)
    requires |content| <= U64_MAX && LawfulReads(content, c, script)
    ensures var (last, bytes) := Deliver(content, c, script);
            && last.position as int + last.remaining == c.position as int + c.remaining
            && last.position == c.position as int + |bytes|
    decreases |script|
  {
    if script != [] {
      var read := script[0];
      AllowanceConserved(content, ReadCursor(content, c, read.count, read.taken), script[1..]);
    }
  }

  /**
   * Opening fails exactly when the seek fails and was needed: the window is not
   * empty, starts past zero, and the recorded length does not place it past the end
   * of a file that no native position reaches.
   */
  lemma OpeningFails(recorded: U64, offset: U64, length: Option<U64>, seekSucceeds: bool)
    ensures Opened(recorded, offset, length, seekSucceeds).None? <==>
              && !seekSucceeds && length != Some(0) && offset > 0
              && (offset <= 0x7FFF_FFFF_FFFF_FFFF || offset < recorded)
  {
  }

  /** The recorded length hides a window the content has. */
  predicate Hidden(content: Bytes, recorded: U64, offset: U64, length: Option<U64>) {
    BeyondNativeRange(recorded, offset) && offset < |content| && length != Some(0)
  }

  lemma OpenedRest(content: Bytes, recorded: U64, offset: U64, length: Option<U64>, seekSucceeds: bool)
    requires |content| <= U64_MAX && Opened(recorded, offset, length, seekSucceeds).Some?
    ensures var hidden := Hidden(content, recorded, offset, length);
            && (hidden ==> Window(content, offset, length) != [])
            && Rest(content, Opened(recorded, offset, length, seekSucceeds).value)
                 == if hidden then [] else Window(content, offset, length)
  {
    if length == Some(0) {
      assert Window(content, offset, length) == [];
    }
  }

  /** A read that wanted bytes and got none found the window exhausted. */
  lemma EndOfWindow(content: Bytes, c: Cursor, read: Read)
    requires LawfulRead(content, c, read.count, read.taken)
    requires read.count > 0 && read.taken == Some(0)
    ensures Rest(content, c) == []
  {
  }

  /**
   * For every file, recorded length, offset, length and sequence of short or failing
   * reads, the delivered bytes are a prefix of the window and the position never
   * passes its end. A non-empty read that returns zero means the whole window was
   * delivered, unless it starts past the signed range, at or after the recorded
   * length, and the file is longer than recorded: then, and only then, bytes of the
   * window are missing, and none was delivered.
   */
  lemma WindowExact(
    content: Bytes, recorded: U64, offset: U64, length: Option<U64>, seekSucceeds: bool, script: seq<Read>, final: Read)
    requires |content| <= U64_MAX && Opened(recorded, offset, length, seekSucceeds).Some?
    requires LawfulReads(content, Opened(recorded, offset, length, seekSucceeds).value, script)
    ensures var (last, bytes) := Deliver(content, Opened(recorded, offset, length, seekSucceeds).value, script);
            var window := Window(content, offset, length);
            && bytes <= window
            && (length.Some? ==> last.position <= offset + length.value)
            && (LawfulRead(content, last, final.count, final.taken) && final.count > 0 && final.taken == Some(0) ==>
                  && (bytes == window <==> !Hidden(content, recorded, offset, length))
                  && (bytes != window ==> bytes == []))
  {
    var start := Opened(recorded, offset, length, seekSucceeds).value;
    var (last, bytes) := Deliver(content, start, script);
    OpenedRest(content, recorded, offset, length, seekSucceeds);
    DeliveredThenRest(content, start, script);
    AllowanceConserved(content, start, script);
    if LawfulRead(content, last, final.count, final.taken) && final.count > 0 && final.taken == Some(0) {
      EndOfWindow(content, last, final);
      assert bytes + [] == bytes;
    }
  }

  /** Progress: enough non-failing reads of at least one byte exhaust the window. */
  lemma {:induction false} ReadsExhaust(content: Bytes, c: Cursor, script: seq<Read>)
    requires |content| <= U64_MAX && LawfulReads(content, c, script)
    requires forall i :: 0 <= i < |script| ==> script[i].count > 0 && script[i].taken.Some?
    requires |script| >= |Rest(content, c)|
    ensures Deliver(content, c, script).1 == Rest(content, c)
    decreases |script|
  {
    if script != [] {
      var read := script[0];
      var next := ReadCursor(content, c, read.count, read.taken);
      var bytes := ReadBytes(content, c, read.count, read.taken);
      ReadThenRest(content, c, read);
      if read.taken == Some(0) {
        EndOfWindow(content, c, read);
      }
      ReadsExhaust(content, next, script[1..]);
    }
  }
}
