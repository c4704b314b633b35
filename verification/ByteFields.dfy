/**
 Field sequences written by a ByteWriter and read by a ByteReader. The reader knows vector
 lengths of two and three octets, and on those the two classes are inverse.
 */
module ByteFields {
  import opened Wrappers
  import opened Octets
  import opened Radix
  import opened BigEndian
  import W = ByteWriter
  import R = ByteReader

  datatype Field =
    | Uint(width: nat, v: int)
    | U64(v: int)
    | Raw(content: bytes)
    | Vector(lenWidth: int, min: int, max: Option<int>, body: bytes)

  /** What the reader is told: everything about a field but its value. */
  datatype Layout =
    | UintLayout(width: nat)
    | RawLayout(n: int)
    | VectorLayout(lenWidth: int, min: int, max: Option<int>)

  datatype Payload = Number(n: nat) | Octets(s: bytes)

  /** The writer accepts the field. */
  predicate Writable(f: Field) {
    match f
    case Uint(width, v) => W.FitsUint(v, width)
    case U64(v) => W.FitsU64(v)
    case Raw(_) => true
    case Vector(lenWidth, min, max, body) => W.FitsVector(lenWidth, min, max, body)
  }

  /** The octets of an accepted field. */
  function FieldBytes(f: Field): bytes
    requires Writable(f)
  {
    match f
    case Uint(width, v) => FixedBytes(v, width)
    case U64(v) => FixedBytes(v, 8)
    case Raw(content) => content
    case Vector(lenWidth, _, _, body) => FixedBytes(|body|, lenWidth) + body
  }

  function LayoutOf(f: Field): Layout {
    match f
    case Uint(width, _) => UintLayout(width)
    case U64(_) => UintLayout(8)
    case Raw(content) => RawLayout(|content|)
    case Vector(lenWidth, min, max, _) => VectorLayout(lenWidth, min, max)
  }

  function PayloadOf(f: Field): Payload
    requires Writable(f)
  {
    match f
    case Uint(_, v) => Number(v)
    case U64(v) => Number(v)
    case Raw(content) => Octets(content)
    case Vector(_, _, _, body) => Octets(body)
  }

  /** The value a reader gives for a layout at an offset, and the offset after it; none when it gives no value. */
  function ReadAt(buf: bytes, pos: int, end: int, l: Layout): Option<(Payload, int)> {
    match l
    case UintLayout(width) =>
      var r := R.UintAt(buf, pos, end, width);
      if r.outcome.Got? then Some((Number(r.outcome.value), r.pos)) else None
    case RawLayout(n) =>
      var r := R.FixedAt(buf, pos, end, n);
      if r.outcome.Got? then Some((Octets(r.outcome.value), r.pos)) else None
    case VectorLayout(lenWidth, min, max) =>
      var r := R.VectorAt(buf, pos, end, lenWidth, min, max);
      if r.outcome.Got? then Some((Octets(r.outcome.value), r.pos)) else None
  }

  function ReadAll(buf: bytes, pos: int, end: int, ls: seq<Layout>): Option<(seq<Payload>, int)>
    decreases |ls|
  {
    if ls == [] then Some(([], pos))
    else
      match ReadAt(buf, pos, end, ls[0])
      case None => None
      case Some((x, p)) =>
        match ReadAll(buf, p, end, ls[1..])
        case None => None
        case Some((xs, q)) => Some(([x] + xs, q))
  }

  predicate AllWritable(fs: seq<Field>) {
    forall f :: f in fs ==> Writable(f)
  }

  function AllBytes(fs: seq<Field>): bytes
    requires AllWritable(fs)
  {
    if fs == [] then [] else FieldBytes(fs[0]) + AllBytes(fs[1..])
  }

  function Layouts(fs: seq<Field>): (r: seq<Layout>)
    ensures |r| == |fs|
  {
    if fs == [] then [] else [LayoutOf(fs[0])] + Layouts(fs[1..])
  }

  function Payloads(fs: seq<Field>): seq<Payload>
    requires AllWritable(fs)
  {
    if fs == [] then [] else [PayloadOf(fs[0])] + Payloads(fs[1..])
  }

  /** Vector lengths in the two widths the reader knows. */
  predicate ReaderKnows(f: Field) {
    f.Vector? ==> f.lenWidth == 2 || f.lenWidth == 3
  }

  lemma VectorReadsBack(buf: bytes, pos: nat, end: nat, lenWidth: int, min: int, max: Option<int>, body: bytes)
    requires W.FitsVector(lenWidth, min, max, body)
    requires HasAt(buf, pos, FixedBytes(|body|, lenWidth) + body) && pos + lenWidth + |body| <= end <= |buf|
    ensures R.VectorAt(buf, pos, end, lenWidth, min, max) == R.Read(R.Got(body), pos + lenWidth + |body|) <==>
            lenWidth == 2 || lenWidth == 3
  {
    hide FixedBytes, NumberAt, Pow;
    if lenWidth == 2 || lenWidth == 3 {
      HasAtSplit(buf, pos, FixedBytes(|body|, lenWidth), body);
      NumberAtFixed(buf, pos, |body|, lenWidth);
      R.UintInside(buf, pos, end, lenWidth, []);
      hide R.UintAt;
    } else {
      R.VectorInside(buf, pos, end, lenWidth, min, max, []);
      hide R.VectorAt;
    }
  }

  /** A written field reads back exactly when the reader knows its length width. */
  lemma FieldReadsBack(buf: bytes, pos: nat, end: nat, f: Field)
    requires Writable(f) && HasAt(buf, pos, FieldBytes(f)) && pos + |FieldBytes(f)| <= end <= |buf|
    ensures ReadAt(buf, pos, end, LayoutOf(f)) == Some((PayloadOf(f), pos + |FieldBytes(f)|)) <==> ReaderKnows(f)
  {
    hide FixedBytes, NumberAt, Pow, R.VectorAt;
    match f
    case Uint(width, v) => NumberAtFixed(buf, pos, v, width);
    case U64(v) => NumberAtFixed(buf, pos, v, 8);
    case Raw(_) =>
    case Vector(lenWidth, min, max, body) => VectorReadsBack(buf, pos, end, lenWidth, min, max, body);
  }

  /**
   Any list of accepted fields, vectors in two or three length octets, reads back as the same values, and the reader
   stands where the writer stopped.
   */
  lemma {:induction false} FieldsReadBack(buf: bytes, pos: nat, end: nat, fs: seq<Field>)
    requires AllWritable(fs) && (forall f :: f in fs ==> ReaderKnows(f))
    requires HasAt(buf, pos, AllBytes(fs)) && pos + |AllBytes(fs)| <= end <= |buf|
    ensures ReadAll(buf, pos, end, Layouts(fs)) == Some((Payloads(fs), pos + |AllBytes(fs)|))
    decreases |fs|
  {
    hide FieldBytes, ReadAt, LayoutOf, PayloadOf, Writable, ReaderKnows;
    if fs != [] {
      HasAtSplit(buf, pos, FieldBytes(fs[0]), AllBytes(fs[1..]));
      FieldReadsBack(buf, pos, end, fs[0]);
      FieldsReadBack(buf, pos + |FieldBytes(fs[0])|, end, fs[1..]);
      assert Layouts(fs)[1..] == Layouts(fs[1..]);
    }
  }

  lemma {:induction false} AllBytesAppend(fs: seq<Field>, f: Field)
    requires AllWritable(fs) && Writable(f)
    ensures AllBytes(fs + [f]) == AllBytes(fs) + FieldBytes(f)
  {
    hide FieldBytes, Writable;
    if fs == [] {
      assert fs + [f] == [f];
      assert AllBytes([f]) == FieldBytes(f) + AllBytes([f][1..]);
    } else {
      AllBytesAppend(fs[1..], f);
      assert (fs + [f])[0] == fs[0] && (fs + [f])[1..] == fs[1..] + [f];
    }
  }

  method BufferOf(s: bytes) returns (buf: array<byte>)
    ensures fresh(buf) && buf[..] == s
  {
    buf := new byte[|s|](i requires 0 <= i < |s| => s[i]);
  }

  /** One field through the writer's method of its kind. */
  method Write(w: W.ByteWriter, f: Field) returns (ok: bool)
    requires w.Valid()
    modifies w
    ensures w.Valid() && ok == Writable(f)
    ensures ok ==> w.Written() == old(w.Written()) + FieldBytes(f)
    ensures !ok ==> w.Written() == old(w.Written())
  {
    hide FixedBytes, Pow;
    match f
    case Uint(width, v) => ok := w.Uint(v, width);
    case U64(v) => ok := w.U64(v);
    case Raw(content) =>
      var buf := BufferOf(content);
      w.Push(buf);
      ok := true;
    case Vector(lenWidth, min, max, body) =>
      var buf := BufferOf(body);
      ok := w.Vector(lenWidth, min, max, buf);
  }

  /** Each layout through the reader's method of its kind. */
  method Read(r: R.ByteReader, l: Layout) returns (x: Option<Payload>)
    requires l.UintLayout? ==> l.width in {1, 2, 3, 4, 8}
    modifies r
    ensures match ReadAt(r.buf, old(r.pos), r.end, l)
      case None => x == None
      case Some((y, p)) => x == Some(y) && r.pos == p
  {
    match l
    case UintLayout(width) =>
      var v := r.Uint(width);
      x := if v.Got? then Some(Number(v.value)) else None;
    case RawLayout(n) =>
      var s := r.Fixed(n);
      x := if s.Got? then Some(Octets(s.value)) else None;
    case VectorLayout(lenWidth, min, max) =>
      var s := r.Vector(lenWidth, min, max);
      x := if s.Got? then Some(Octets(s.value)) else None;
  }

  method WriteFields(w: W.ByteWriter, fs: seq<Field>)
    requires w.Valid() && w.Written() == [] && AllWritable(fs)
    modifies w
    ensures w.Valid() && w.Written() == AllBytes(fs)
  {
    hide FieldBytes, Writable;
    for i := 0 to |fs|
      invariant w.Valid() && w.Written() == AllBytes(fs[..i])
    {
      AllBytesAppend(fs[..i], fs[i]);
      assert fs[..i + 1] == fs[..i] + [fs[i]];
      var ok := Write(w, fs[i]);
    }
    assert fs[..|fs|] == fs;
  }

  method ReadFields(r: R.ByteReader, fs: seq<Field>) returns (xs: seq<Payload>)
    requires AllWritable(fs)
    requires ReadAll(r.buf, r.pos, r.end, Layouts(fs)) == Some((Payloads(fs), r.pos + |AllBytes(fs)|))
    modifies r
    ensures xs == Payloads(fs) && r.pos == old(r.pos) + |AllBytes(fs)|
  {
    hide ReadAt, Writable, PayloadOf, FieldBytes, LayoutOf;
    xs := [];
    assert fs[0..] == fs;
    for i := 0 to |fs|
      invariant match ReadAll(r.buf, r.pos, r.end, Layouts(fs[i..]))
        case None => false
        case Some((ys, p)) => xs + ys == Payloads(fs) && p == old(r.pos) + |AllBytes(fs)|
    {
      assert fs[i..][1..] == fs[i + 1..];
      assert Layouts(fs[i..])[1..] == Layouts(fs[i + 1..]);
      UintWidths(fs[i]);
      var x := Read(r, LayoutOf(fs[i]));
      xs := xs + [x.value];
    }
  }

  /**
   Writing a list of fields into a new writer and reading them from what it built gives the values written, and
   leaves nothing.
   */
  method WriteThenRead(fs: seq<Field>) returns (out: bytes, xs: seq<Payload>, done: bool)
    requires AllWritable(fs) && forall f :: f in fs ==> ReaderKnows(f)
    ensures out == AllBytes(fs) && xs == Payloads(fs) && done
  {
    hide FieldBytes, ReadAt, Writable, PayloadOf, ReaderKnows, AllBytes, Payloads, Layouts, ReadAll, W.Joined;
    var w := new W.ByteWriter();
    WriteFields(w, fs);
    out := w.Build();
    FieldsReadBack(out, 0, |out|, fs);
    var r := new R.ByteReader(out, 0, None, []);
    xs := ReadFields(r, fs);
    done := r.AtEnd();
  }

  lemma UintWidths(f: Field)
    requires Writable(f)
    ensures LayoutOf(f).UintLayout? ==> LayoutOf(f).width in {1, 2, 3, 4, 8}
  {
  }
}
