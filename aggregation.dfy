/**
 * The Aggregation package serializer: a flat packer that first sums the field
 * widths, allocates and zero-fills a buffer of that size, then moves a write
 * cursor through it, one field after another. Strings are written as a one-byte
 * size followed by that many bytes. The host representations of `bool`,
 * `Schedule`, `uint16_t` and `Status` are not part of this model: each such
 * field is an opaque block of bytes of its fixed width.
 */
module AggregationPackage {
  import opened Wrappers
  import opened Constants

  /** sizeof(bool) on the host. */
  const BoolWidth: nat
  /** sizeof(Schedule) on the host. */
  const ScheduleWidth: nat
  /** sizeof(Status) on the host. */
  const StatusWidth: nat
  /** sizeof(uint16_t). */
  const Uint16Width: nat := 2
  /** numeric_limits<uint8_t>::max(): the most string bytes one size prefix can announce. */
  const MaxStringCopy: nat := 255

  /** How many bytes of a string with the given size field are copied. */
  function Capped(size: nat): (n: nat)
    ensures n <= MaxStringCopy && n <= size
    ensures size <= MaxStringCopy ==> n == size
  {
    if size > MaxStringCopy then MaxStringCopy else size
  }

  datatype Aggregation = Aggregation(
    id: byte,
    descriptionSize: byte,
    description: seq<byte>,
    manual: seq<byte>,      // bool, as host bytes
    schedule: seq<byte>,    // Schedule, as host bytes
    startSize: byte,
    start: seq<byte>,
    endSize: byte,
    end: seq<byte>,
    sequential: seq<byte>,  // bool, as host bytes
    weight: seq<byte>,      // uint16_t, as host bytes
    status: seq<byte>)      // Status, as host bytes
  {
    /**
     * Each string holds at least as many bytes as its size field announces, and
     * each fixed-width block has its host width.
     */
    predicate Valid()
    {
      && descriptionSize <= |description|
      && startSize <= |start|
      && endSize <= |end|
      && |manual| == BoolWidth
      && |schedule| == ScheduleWidth
      && |sequential| == BoolWidth
      && |weight| == Uint16Width
      && |status| == StatusWidth
    }

    /**
     * The size computed before allocation: the sum of the field widths. The
     * size fields hold one byte, so the 255-byte cap never shortens a string.
     */
    function AllocSize(): (n: nat)
      ensures n == 4 + descriptionSize + startSize + endSize + 2 * BoolWidth + ScheduleWidth + Uint16Width + StatusWidth
    {
      1 + 1 + Capped(descriptionSize) + BoolWidth + ScheduleWidth
      + 1 + Capped(startSize) + 1 + Capped(endSize)
      + BoolWidth + Uint16Width + StatusWidth
    }

    /**
     * `Aggregation::serialize()`: the buffer holds every field in declaration
     * order and fills the allocation exactly; the returned size is the cursor
     * before the status field, so it leaves the status bytes out.
     */
    method Serialize() returns (buf: seq<byte>, size: nat)
      requires Valid()
      ensures |buf| == AllocSize()
      ensures buf == Layout(this)
      ensures size == AllocSize() - StatusWidth
    {
      size := 0;
      size := size + 1;                        // id
      size := size + 1;                        // descriptionSize
      size := size + Capped(descriptionSize);  // description
      size := size + BoolWidth;                // manual
      size := size + ScheduleWidth;            // schedule
      size := size + 1;                        // startSize
      size := size + Capped(startSize);        // start
      size := size + 1;                        // endSize
      size := size + Capped(endSize);          // end
      size := size + BoolWidth;                // sequential
      size := size + Uint16Width;              // weight
      size := size + StatusWidth;              // status
      assert size == AllocSize();

      var b := new byte[size](_ => 0);
      size := WriteFront(b);
      ghost var front := b[..size];
      size := WriteWindow(b, size, front);
      ghost var upToEnd := b[..size];
      size := WriteBack(b, size, upToEnd);
      assert b[..] == b[..size + StatusWidth];
      buf := b[..];
    }

    /*
     * The cursor writes of `serialize()`, in three stretches. Each stretch
     * starts where the previous one stopped and extends what is already in
     * the buffer.
     */

    /** id, description, manual and schedule, from the start of the buffer. */
    method WriteFront(b: array<byte>) returns (size: nat)
      requires Valid() && AllocSize() <= b.Length
      modifies b
      ensures size == 2 + Capped(descriptionSize) + BoolWidth + ScheduleWidth
      ensures b[..size] == [id] + StringField(descriptionSize, description) + manual + schedule
    {
      size := 0;
      CopyInto(b, size, [id], []);
      assert [] + [id] == [id];
      size := size + 1;
      size := WriteString(b, size, descriptionSize, description, [id]);
      ghost var written := [id] + StringField(descriptionSize, description);
      CopyInto(b, size, manual, written);
      size := size + BoolWidth;
      CopyInto(b, size, schedule, written + manual);
      size := size + ScheduleWidth;
    }

    /** The start and end strings, after `prefix`. */
    method WriteWindow(b: array<byte>, at: nat, ghost prefix: seq<byte>) returns (size: nat)
      requires Valid()
      requires at == 2 + Capped(descriptionSize) + BoolWidth + ScheduleWidth && AllocSize() <= b.Length
      requires b[..at] == prefix
      modifies b
      ensures size == at + 1 + Capped(startSize) + 1 + Capped(endSize)
      ensures b[..size] == prefix + StringField(startSize, start) + StringField(endSize, end)
    {
      size := WriteString(b, at, startSize, start, prefix);
      size := WriteString(b, size, endSize, end, prefix + StringField(startSize, start));
    }

    /**
     * sequential, weight and status, after `prefix`. The cursor is not moved
     * past the status bytes, so the size it returns leaves them out.
     */
    method WriteBack(b: array<byte>, at: nat, ghost prefix: seq<byte>) returns (size: nat)
      requires Valid()
      requires at + BoolWidth + Uint16Width + StatusWidth <= b.Length
      requires b[..at] == prefix
      modifies b
      ensures size == at + BoolWidth + Uint16Width
      ensures b[..size + StatusWidth] == prefix + sequential + weight + status
    {
      size := at;
      CopyInto(b, size, sequential, prefix);
      size := size + BoolWidth;
      CopyInto(b, size, weight, prefix + sequential);
      size := size + Uint16Width;
      CopyInto(b, size, status, prefix + sequential + weight);
    }

    /** `Aggregation::serialize(const Buffer *)`: the reverse direction is a stub that yields nothing. */
    function FromBuffer(buffer: seq<byte>): (r: Option<Aggregation>)
      ensures r.None?
    {
      None
    }
  }

  /** The serialized form: the fields in write order, strings behind their size bytes. */
  function Layout(a: Aggregation): (s: seq<byte>)
    requires a.Valid()
    ensures |s| == a.AllocSize()
  {
    [a.id] + StringField(a.descriptionSize, a.description)
    + a.manual + a.schedule
    + StringField(a.startSize, a.start)
    + StringField(a.endSize, a.end)
    + a.sequential + a.weight + a.status
  }

  /** A string field on the wire: its size byte, then that many bytes of the string (at most 255). */
  function StringField(size: byte, str: seq<byte>): (f: seq<byte>)
    requires size <= |str|
    ensures |f| == 1 + Capped(size)
    ensures f[0] == size && f[1..] == str[..Capped(size)]
  {
    [size] + str[..Capped(size)]
  }

  /**
   * One string field: its size byte, then, when the size is not zero, that
   * many bytes of the string (capped at 255). Returns the cursor after it.
   */
  method WriteString(buf: array<byte>, at: nat, size: byte, str: seq<byte>, ghost prefix: seq<byte>)
    returns (next: nat)
    requires size <= |str| && at + 1 + Capped(size) <= buf.Length
    requires buf[..at] == prefix
    modifies buf
    ensures next == at + 1 + Capped(size)
    ensures buf[..next] == prefix + StringField(size, str)
  {
    CopyInto(buf, at, [size], prefix);
    next := at + 1;
    if size != 0 {
      CopyInto(buf, next, str[..Capped(size)], prefix + [size]);
      next := next + Capped(size);
    }
  }

  /**
   * memcpy of `src` into `buf` at `at`: when `buf` starts with `prefix`, it
   * afterwards starts with `prefix + src`.
   */
  method CopyInto(buf: array<byte>, at: nat, src: seq<byte>, ghost prefix: seq<byte>)
    requires at + |src| <= buf.Length
    requires buf[..at] == prefix
    modifies buf
    ensures buf[..at + |src|] == prefix + src
  {
    var i := 0;
    while i < |src|
      invariant 0 <= i <= |src|
      invariant buf[..at + i] == prefix + src[..i]
    {
      buf[at + i] := src[i];
      i := i + 1;
      assert buf[..at + i] == buf[..at + i - 1] + [src[i - 1]];
    }
  }

  /**
   * When `s` starts with `p + f`, it starts with `p`, and `f` follows right
   * after it.
   */
  lemma PeelField(s: seq<byte>, p: seq<byte>, f: seq<byte>)
    requires |p| + |f| <= |s| && s[..|p| + |f|] == p + f
    ensures s[..|p|] == p && s[|p|..|p| + |f|] == f
  {
    assert s[..|p|] == (p + f)[..|p|];
    assert s[|p|..|p| + |f|] == (p + f)[|p|..];
  }

  /**
   * Where each field sits in the serialized buffer: every field starts where
   * the previous one ends, in the order id, description (size byte first),
   * manual, schedule, start, end, sequential, weight, status, and the status
   * block ends the buffer.
   */
  lemma {:induction false} LayoutFieldOffsets(a: Aggregation)
    requires a.Valid()
    ensures var s := Layout(a);
            var oManual := 2 + Capped(a.descriptionSize);
            var oSchedule := oManual + BoolWidth;
            var oStartSize := oSchedule + ScheduleWidth;
            var oEndSize := oStartSize + 1 + Capped(a.startSize);
            var oSequential := oEndSize + 1 + Capped(a.endSize);
            var oWeight := oSequential + BoolWidth;
            var oStatus := oWeight + Uint16Width;
            && |s| == oStatus + StatusWidth == a.AllocSize()
            && s[0] == a.id
            && s[1..oManual] == StringField(a.descriptionSize, a.description)
            && s[oManual..oSchedule] == a.manual
            && s[oSchedule..oStartSize] == a.schedule
            && s[oStartSize..oEndSize] == StringField(a.startSize, a.start)
            && s[oEndSize..oSequential] == StringField(a.endSize, a.end)
            && s[oSequential..oWeight] == a.sequential
            && s[oWeight..oStatus] == a.weight
            && s[oStatus..] == a.status
  {
    // Layout(a) is p9, and each pk is p(k-1) followed by one field.
    var p1 := [a.id];
    var p2 := p1 + StringField(a.descriptionSize, a.description);
    var p3 := p2 + a.manual;
    var p4 := p3 + a.schedule;
    var p5 := p4 + StringField(a.startSize, a.start);
    var p6 := p5 + StringField(a.endSize, a.end);
    var p7 := p6 + a.sequential;
    var p8 := p7 + a.weight;
    var s := p8 + a.status;
    assert s[..|s|] == s;
    PeelField(s, p8, a.status);
    PeelField(s, p7, a.weight);
    PeelField(s, p6, a.sequential);
    PeelField(s, p5, StringField(a.endSize, a.end));
    PeelField(s, p4, StringField(a.startSize, a.start));
    PeelField(s, p3, a.schedule);
    PeelField(s, p2, a.manual);
    PeelField(s, p1, StringField(a.descriptionSize, a.description));
  }
}
