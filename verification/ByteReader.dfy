/**
 The bounded octet cursor of byte-reader.js. A reader holds a window of a buffer; a
 sub-reader's window lies inside its parent's. The windows of all ancestors are kept as
 ghost state, so that each read says which octets it took and that every one of those
 windows holds them. Start, end and counts are any integers, as the source lets them be.
 */
module ByteReader {
  import opened Wrappers
  import opened Octets
  import opened Radix
  import opened BigEndian

  datatype Window = Window(lo: int, hi: int)

  /** Every window holds the octets from lo up to hi. */
  ghost predicate Inside(windows: seq<Window>, lo: int, hi: int) {
    lo <= hi && forall w :: w in windows ==> w.lo <= lo && hi <= w.hi
  }

  /**
   A value, or undefined; or an error of the caller's class, for too few octets or a length out of bounds, or the
   range error of the buffer's own readers.
   */
  datatype Outcome<T> = Got(value: T) | Undefined | TooShort | BadLength | OutOfRange

  /** The outcome of a read and the cursor after it. */
  datatype Read<T> = Read(outcome: Outcome<T>, pos: int)

  /** A number cut to 32 bits, signed. */
  function Int32(x: int): int {
    (x + 0x8000_0000) % 0x1_0000_0000 - 0x8000_0000
  }

  /** An octet missing from a buffer counts as zero in a shift. */
  function OctetOrZero(buf: bytes, i: int): nat {
    if 0 <= i < |buf| then buf[i] else 0
  }

  function UintAt(buf: bytes, pos: int, end: int, width: nat): Read<nat> {
    if pos + width > end then Read(TooShort, pos)
    else if 0 <= pos && pos + width <= |buf| then Read(Got(NumberAt(buf, pos, width)), pos + width)
    else if width == 1 then Read(Undefined, pos + 1)
    else if width == 3 then
      Read(Got(OctetOrZero(buf, pos) * 65536 + OctetOrZero(buf, pos + 1) * 256 + OctetOrZero(buf, pos + 2)), pos + 3)
    else Read(OutOfRange, pos)
  }

  /** An index of subarray: a negative one counts from the end, and none passes either end. */
  function Index(i: int, length: nat): (r: nat)
    ensures r <= length
  {
    if i >= length then length else if i >= 0 then i else if length + i >= 0 then length + i else 0
  }

  function Subarray(buf: bytes, from: int, to: int): bytes {
    var i, j := Index(from, |buf|), Index(to, |buf|);
    if i < j then buf[i..j] else []
  }

  function FixedAt(buf: bytes, pos: int, end: int, n: int): Read<bytes> {
    if pos + n > end then Read(TooShort, pos) else Read(Got(Subarray(buf, pos, pos + n)), pos + n)
  }

  /** A length in three octets when asked for three, else in two; then the body if its length is within bounds. */
  function VectorAt(buf: bytes, pos: int, end: int, lenWidth: int, min: int, max: Option<int>): Read<bytes> {
    var length := UintAt(buf, pos, end, if lenWidth == 3 then 3 else 2);
    match length.outcome
    case Got(len) =>
      if len < min || (max.Some? && len > max.value) then Read(BadLength, length.pos)
      else FixedAt(buf, length.pos, end, len)
    case OutOfRange => Read(OutOfRange, length.pos)
    case _ => Read(TooShort, length.pos)
  }

  // ---------------------------------------------------------------- what is taken

  /** The cursor is inside the buffer and inside every window, and so is the end of the last. */
  ghost predicate Placed(buf: bytes, pos: int, end: int, windows: seq<Window>) {
    0 <= pos <= end <= |buf| && Inside(windows, pos, end)
  }

  /** A reader inside its windows takes a number from inside them or, short of octets, stays where it is. */
  lemma UintInside(buf: bytes, pos: int, end: int, width: nat, windows: seq<Window>)
    requires Placed(buf, pos, end, windows)
    ensures var r := UintAt(buf, pos, end, width);
      && Placed(buf, r.pos, end, windows) && Inside(windows, pos, r.pos)
      && r.outcome == if pos + width <= end then Got(NumberAt(buf, pos, width)) else TooShort
  {
    hide NumberAt;
  }

  /**
   A count of octets taken from inside the windows: the octets are the next ones, they stay before the end exactly
   when the count does not reach back past the buffer's start, or then names no octet past the end; and the cursor
   goes on inside the windows exactly when the count is not negative.
   */
  lemma FixedInside(buf: bytes, pos: int, end: int, n: int, windows: seq<Window>)
    requires Placed(buf, pos, end, windows) && pos + n <= end
    ensures var r := FixedAt(buf, pos, end, n);
      && r.outcome.Got? && r.outcome.value <= buf[pos..]
      && (n >= 0 ==> |r.outcome.value| == n)
      && (pos + |r.outcome.value| <= end <==> pos + n >= 0 || |buf| + pos + n <= end)
      && (Inside(windows, pos, r.pos) <==> n >= 0)
      && (n >= 0 ==> Placed(buf, r.pos, end, windows))
  {
    var r := FixedAt(buf, pos, end, n);
    var j := Index(pos + n, |buf|);
    assert Index(pos, |buf|) == pos;
    if pos < j { assert r.outcome.value == buf[pos..j] && buf[pos..][..j - pos] == buf[pos..j]; }
  }

  lemma VectorInside(buf: bytes, pos: int, end: int, lenWidth: int, min: int, max: Option<int>, windows: seq<Window>)
    requires Placed(buf, pos, end, windows)
    ensures var r := VectorAt(buf, pos, end, lenWidth, min, max);
      && Placed(buf, r.pos, end, windows) && Inside(windows, pos, r.pos)
      && !r.outcome.Undefined? && !r.outcome.OutOfRange?
      && (r.outcome.Got? ==> r.pos == pos + (if lenWidth == 3 then 3 else 2) + |r.outcome.value|)
      && (r.outcome.Got? ==> r.outcome.value == buf[r.pos - |r.outcome.value|..r.pos])
  {
    var width := if lenWidth == 3 then 3 else 2;
    UintInside(buf, pos, end, width, windows);
    hide UintAt, FixedAt, NumberAt;
    var length := UintAt(buf, pos, end, width);
    if length.outcome.Got? {
      var len := length.outcome.value;
      if length.pos + len <= end {
        FixedInside(buf, length.pos, end, len, windows);
        FixedEnds(buf, length.pos, end, len);
      } else {
        FixedEnds(buf, length.pos, end, len);
      }
    }
  }

  lemma FixedEnds(buf: bytes, pos: int, end: int, n: int)
    ensures FixedAt(buf, pos, end, n).pos == if pos + n <= end then pos + n else pos
    ensures FixedAt(buf, pos, end, n).outcome.TooShort? <==> pos + n > end
    ensures FixedAt(buf, pos, end, n).outcome.Got? || FixedAt(buf, pos, end, n).outcome.TooShort?
  {
  }

  lemma ThreeOctets(buf: bytes, pos: nat)
    requires pos + 3 <= |buf|
    ensures NumberAt(buf, pos, 3) ==
            OctetOrZero(buf, pos) * 65536 + OctetOrZero(buf, pos + 1) * 256 + OctetOrZero(buf, pos + 2)
  {
    var s := buf[pos..pos + 3];
    assert s[..2][..1] == [s[0]] && s[..2][1] == s[1];
    assert Value(s, 256) == Value(s[..2], 256) * 256 + s[2];
    assert Value(s[..2], 256) == Value([s[0]], 256) * 256 + s[1];
    OneOctet(buf, pos);
    assert buf[pos..pos + 1] == [s[0]];
  }

  lemma OneOctet(buf: bytes, pos: nat)
    requires pos + 1 <= |buf|
    ensures NumberAt(buf, pos, 1) == buf[pos]
  {
    assert buf[pos..pos + 1] == [buf[pos]];
    ValueAppend([], 256, buf[pos]);
    ValueNil(256);
    assert [] + [buf[pos]] == [buf[pos]];
  }

  // ---------------------------------------------------------------- the reader

  class ByteReader {
    const buf: bytes
    const end: int
    var pos: int
    /** This reader's window and those of the readers it came from, outermost first. */
    ghost const windows: seq<Window>

    /** The cursor is in its window, which lies in the buffer and in every ancestor's. */
    ghost predicate Valid()
      reads this
    {
      windows != [] && windows[|windows| - 1].hi == end && Placed(buf, pos, end, windows)
    }

    /** A reader of the octets from start up to end, or up to the end of the buffer. */
    constructor (buf: bytes, start: int, end: Option<int>, ghost ancestors: seq<Window>)
      ensures this.buf == buf && pos == Int32(start)
      ensures this.end == if end.None? then |buf| else Int32(end.value)
      ensures windows == ancestors + [Window(pos, this.end)]
      ensures Valid() <==> Placed(buf, pos, this.end, ancestors)
    {
      this.buf := buf;
      this.end := if end.None? then |buf| else Int32(end.value);
      pos := Int32(start);
      windows := ancestors + [Window(Int32(start), if end.None? then |buf| else Int32(end.value))];
    }

    /** u8, u16, u24, u32 and u64 are this with a width of 1, 2, 3, 4 and 8. */
    method Uint(width: nat) returns (r: Outcome<nat>)
      requires width in {1, 2, 3, 4, 8}
      modifies this
      ensures Read(r, pos) == UintAt(buf, old(pos), end, width)
      ensures old(Valid()) ==> Valid() && Inside(windows, old(pos), pos) && (r.Got? || r.TooShort?)
    {
      if old(Valid()) { UintInside(buf, pos, end, width, windows); }
      if 0 <= pos && pos + 3 <= |buf| { ThreeOctets(buf, pos); }
      if 0 <= pos && pos + 1 <= |buf| { OneOctet(buf, pos); }
      hide NumberAt, Placed;
      if pos + width > end { return TooShort; }
      if width == 1 {
        r := if 0 <= pos < |buf| then Got(buf[pos]) else Undefined;
      } else if width == 3 {
        r := Got(OctetOrZero(buf, pos) * 65536 + OctetOrZero(buf, pos + 1) * 256 + OctetOrZero(buf, pos + 2));
      } else {
        if pos < 0 || pos + width > |buf| { return OutOfRange; }
        var v := ReadBigEndian(buf, pos, width);
        r := Got(v);
      }
      pos := pos + width;
    }

    /** A count that is not negative takes the next octets of the window; any other moves the cursor back. */
    method Fixed(n: int) returns (r: Outcome<bytes>)
      modifies this
      ensures Read(r, pos) == FixedAt(buf, old(pos), end, n)
      ensures old(Valid()) && !r.TooShort? ==>
                && (Inside(windows, old(pos), pos) <==> n >= 0)
                && (n >= 0 ==> Valid() && r == Got(buf[old(pos)..pos]))
    {
      if old(Valid()) && pos + n <= end { FixedInside(buf, pos, end, n, windows); }
      hide Placed;
      if pos + n > end { return TooShort; }
      r := Got(Subarray(buf, pos, pos + n));
      pos := pos + n;
    }

    /** A refused length has been read: the cursor then stands after it. */
    method Vector(lenWidth: int, min: int, max: Option<int>) returns (r: Outcome<bytes>)
      modifies this
      ensures Read(r, pos) == VectorAt(buf, old(pos), end, lenWidth, min, max)
      ensures old(Valid()) ==> Valid() && Inside(windows, old(pos), pos)
      ensures old(Valid()) && r.Got? ==>
                && pos == old(pos) + (if lenWidth == 3 then 3 else 2) + |r.value|
                && r.value == buf[pos - |r.value|..pos]
    {
      if old(Valid()) { VectorInside(buf, pos, end, lenWidth, min, max, windows); }
      hide UintAt, FixedAt, Placed, Inside;
      var length: Outcome<nat>;
      if lenWidth == 3 { length := Uint(3); } else { length := Uint(2); }
      match length
      case Got(len) =>
        if len < min { return BadLength; }
        if max.Some? && len > max.value { return BadLength; }
        r := Fixed(len);
      case OutOfRange => r := OutOfRange;
      case _ => r := TooShort;
    }

    /**
     A reader of the next octets; this reader goes on after them, and the new one's windows are this one's and its
     own. Inside 32 bits the new window lies in all the others exactly when the length is not negative.
     */
    method SubReader(len: int) returns (r: Option<ByteReader>)
      modifies this`pos
      ensures r.None? <==> old(pos) + len > end
      ensures pos == if r.None? then old(pos) else old(pos) + len
      ensures r.Some? ==>
                && fresh(r.value) && r.value.buf == buf && r.value.pos == Int32(old(pos)) && r.value.end == Int32(pos)
                && r.value.windows == windows + [Window(r.value.pos, r.value.end)]
      ensures old(Valid()) && (r.None? || len >= 0) ==> Valid()
      ensures old(Valid()) && r.Some? && old(pos) < 0x8000_0000 && -0x8000_0000 <= pos < 0x8000_0000 ==>
                (r.value.Valid() <==> len >= 0)
    {
      if pos + len > end { return None; }
      var sub := new ByteReader(buf, pos, Some(pos + len), windows);
      pos := pos + len;
      r := Some(sub);
    }

    method Remaining() returns (n: int)
      ensures n == end - pos
    {
      n := end - pos;
    }

    method AtEnd() returns (done: bool)
      ensures done <==> pos == end
    {
      done := pos == end;
    }
  }
}
