/**
 * The writer as the source runs it: an `_EWKBWriter` that appends to a
 * `BytesIO` buffer every child writer shares, and the `_write_ewkb_body`
 * methods that drive it.  Each method is proved against the function of
 * `Encoding` that describes it: when that function succeeds, the method
 * appends exactly its bytes; when it fails, the method raises the same error
 * and has only appended to the buffer.
 */
module Writing {
  import opened Wrappers
  import opened Bytes
  import opened Geometries
  import opened Encoding

  /** `io.BytesIO` opened for writing: everything written so far. */
  class Buffer {
    var bytes: seq<byte>

    /** `BytesIO()`: an empty buffer. */
    constructor ()
      ensures bytes == []
    {
      bytes := [];
    }

    /** `write(b)`: appends `b`. */
    method Write(b: seq<byte>)
      modifies this
      ensures bytes == old(bytes) + b
    {
      bytes := bytes + b;
    }
  }

  /**
   * What a writing method achieves, given the function `spec` that describes
   * it: the buffer grows by `spec`'s bytes on success; on failure the method
   * raises `spec`'s error, and what was in the buffer before is still there.
   */
  predicate Emits(r: Outcome<Error>, spec: Result<seq<byte>, Error>, before: seq<byte>, after: seq<byte>)
  {
    if spec.Success? then r == Pass && after == before + spec.value
    else r == Fail(spec.error) && before <= after
  }

  /** A method that emits `first` and then `second` emits their concatenation. */
  lemma EmitsThen(first: Result<seq<byte>, Error>, second: Result<seq<byte>, Error>, r: Outcome<Error>,
                  before: seq<byte>, middle: seq<byte>, after: seq<byte>)
    requires first.Success? && middle == before + first.value
    requires Emits(r, second, middle, after)
    ensures Emits(r, Cat(first, second), before, after)
  {
    if second.Success? {
      assert after == before + (first.value + second.value);
    }
  }

  /** The loop invariant of the body writers, when the rest of the list fails: the whole body fails so. */
  lemma Stops(written: seq<byte>, rest: Result<seq<byte>, Error>, start: seq<byte>, spec: Result<seq<byte>, Error>)
    requires rest.Failure? && Cat(Success(written), rest) == Cat(Success(start), spec)
    ensures spec == rest
  {
  }

  /** The loop invariant of the body writers, when the list is done: the whole body is written. */
  lemma Finishes(written: seq<byte>, start: seq<byte>, spec: Result<seq<byte>, Error>)
    requires Cat(Success(written), Success([])) == Cat(Success(start), spec)
    ensures spec.Success? && written == start + spec.value
  {
    assert written + [] == written;
  }

  /** The header as `__init__` writes it, field by field. */
  lemma HeaderWritten(g: Geometry, code: uint32, word: uint32)
    requires TypeCode(g) == Success(code) && DimensionsDefined(g)
    requires DimensionsDefined(g) <==> HasZ(g).Success? && HasM(g).Success?
    requires word == TypeWord(code, HasZ(g).value, HasM(g).value, HasSrid(g))
    ensures SerializeHeader(g) == Success([0x01] + PackUint32LE(word) + (if HasSrid(g) then PackUint32LE(g.srid.value) else []))
  {
  }

  /** `_EWKBWriter`: only the shared buffer; the header is written when the writer is made. */
  class Writer {
    const stream: Buffer

    constructor (stream: Buffer)
      ensures this.stream == stream
    {
      this.stream := stream;
    }

    /** `child_writer`: a writer for `g` on the same buffer, which writes `g`'s header first. */
    method ChildWriter(g: Geometry) returns (r: Result<Writer, Error>)
      modifies stream
      ensures r.Success? <==> SerializeHeader(g).Success?
      ensures r.Success? ==> fresh(r.value) && r.value.stream == stream && stream.bytes == old(stream.bytes) + SerializeHeader(g).value
      ensures r.Failure? ==> r.error == SerializeHeader(g).error
      ensures r.Failure? ==> stream.bytes == old(stream.bytes) + (if g.Unsupported? then [] else [0x01])
    {
      r := NewWriter(g, Some(stream));
    }

    /**
     * The rest of `__init__`: the class is checked first, so an unsupported
     * class writes nothing; 0x01 is written before `has_z` is asked, so an
     * empty composite leaves that byte behind.
     */
    method WriteHeader(g: Geometry) returns (r: Outcome<Error>)
      modifies stream
      ensures Emits(r, SerializeHeader(g), old(stream.bytes), stream.bytes)
      ensures r.Fail? ==> stream.bytes == old(stream.bytes) + (if g.Unsupported? then [] else [0x01])
    {
      var code := TypeCode(g);
      if code.Failure? {
        return Fail(code.error);
      }
      stream.Write([0x01]);
      DimensionsDefinedIff(g);
      var hasZ := HasZ(g);
      var hasM := HasM(g);
      if hasZ.Failure? || hasM.Failure? {
        return Fail(EmptyComposite);
      }
      var word := TypeWord(code.value, hasZ.value, hasM.value, HasSrid(g));
      var _ := WriteInt(word);
      assert stream.bytes == old(stream.bytes) + [0x01] + PackUint32LE(word);
      if HasSrid(g) {
        var _ := WriteInt(g.srid.value);
      }
      HeaderWritten(g, code.value, word);
      r := Pass;
    }

    /** `write_int`: `struct.pack('<I', n)`, which raises for a value that does not fit. */
    method WriteInt(n: nat) returns (r: Outcome<Error>)
      modifies stream
      ensures Emits(r, PackCount(n), old(stream.bytes), stream.bytes)
      ensures r.Fail? ==> stream.bytes == old(stream.bytes)
    {
      if n < 0x1_0000_0000 {
        stream.Write(PackUint32LE(n));
        r := Pass;
      } else {
        r := Fail(CountOverflow);
      }
    }

    /** `write_double`: `struct.pack('<d', x)`. */
    method WriteDouble(x: Float64)
      modifies stream
      ensures stream.bytes == old(stream.bytes) + PackDoubleLE(x)
    {
      stream.Write(PackDoubleLE(x));
    }
  }

  /**
   * `_EWKBWriter(g, stream)`: the buffer is `stream`, or a fresh `BytesIO()`
   * when none is given, and `g`'s header is written to it.
   */
  method NewWriter(g: Geometry, stream: Option<Buffer>) returns (r: Result<Writer, Error>)
    modifies if stream.Some? then {stream.value} else {}
    ensures r.Success? <==> SerializeHeader(g).Success?
    ensures r.Failure? ==> r.error == SerializeHeader(g).error
    ensures r.Success? ==> fresh(r.value)
    ensures r.Success? ==> if stream.Some? then r.value.stream == stream.value else fresh(r.value.stream)
    ensures r.Success? ==> r.value.stream.bytes == (if stream.Some? then old(stream.value.bytes) else []) + SerializeHeader(g).value
    ensures stream.Some? && r.Failure? ==> stream.value.bytes == old(stream.value.bytes) + (if g.Unsupported? then [] else [0x01])
  {
    var buffer: Buffer;
    if stream.Some? {
      buffer := stream.value;
    } else {
      buffer := new Buffer();
    }
    var w := new Writer(buffer);
    var e := w.WriteHeader(g);
    if e.Fail? {
      return Failure(e.error);
    }
    r := Success(w);
  }

  /** `Point._write_ewkb_body`: x, y, then z and m when the point has them. */
  method WritePointBody(writer: Writer, p: Geometry)
    requires p.Point?
    modifies writer.stream
    ensures writer.stream.bytes == old(writer.stream.bytes) + PointBody(p)
  {
    writer.WriteDouble(p.x);
    writer.WriteDouble(p.y);
    if p.z.Some? {
      writer.WriteDouble(p.z.value);
    }
    if p.m.Some? {
      writer.WriteDouble(p.m.value);
    }
  }

  /** Appending in two steps is appending the concatenation. */
  lemma CatAppend(a: seq<byte>, b: seq<byte>, rest: Result<seq<byte>, Error>)
    ensures Cat(Success(a + b), rest) == Cat(Success(a), Cat(Success(b), rest))
  {
    if rest.Success? {
      assert (a + b) + rest.value == a + (b + rest.value);
    }
  }

  /** The loop of `LineString._write_ewkb_body`, one point at a time. */
  lemma FlatPointsFrom(ps: seq<Geometry>, i: nat)
    requires i < |ps|
    ensures FlatPoints(ps[i..])
      == Cat(if ps[i].Point? then Success(PointBody(ps[i])) else Failure(InvalidGeometry), FlatPoints(ps[i + 1..]))
  {
    assert ps[i..][1..] == ps[i + 1..];
  }

  /**
   * `LineString._write_ewkb_body`: the count, then each point's body; a
   * child that is not a point raises after the points before it are written.
   */
  method WriteLineStringBody(writer: Writer, ps: seq<Geometry>) returns (r: Outcome<Error>)
    modifies writer.stream
    ensures Emits(r, LineStringBody(ps), old(writer.stream.bytes), writer.stream.bytes)
  {
    ghost var start := writer.stream.bytes;
    r := writer.WriteInt(|ps|);
    if r.Fail? {
      return;
    }
    CatAppend(start, PackCount(|ps|).value, FlatPoints(ps));
    for i := 0 to |ps|
      invariant start <= writer.stream.bytes
      invariant Cat(Success(writer.stream.bytes), FlatPoints(ps[i..])) == Cat(Success(start), LineStringBody(ps))
    {
      FlatPointsFrom(ps, i);
      if !ps[i].Point? {
        Stops(writer.stream.bytes, FlatPoints(ps[i..]), start, LineStringBody(ps));
        return Fail(InvalidGeometry);
      }
      ghost var before := writer.stream.bytes;
      WritePointBody(writer, ps[i]);
      CatAppend(before, PointBody(ps[i]), FlatPoints(ps[i + 1..]));
    }
    assert ps[|ps|..] == [];
    Finishes(writer.stream.bytes, start, LineStringBody(ps));
  }

  /** The loop of `Polygon._write_ewkb_body`, one ring at a time. */
  lemma FlatRingsFrom(rs: seq<Geometry>, i: nat)
    requires i < |rs|
    ensures FlatRings(rs[i..])
      == Cat(if rs[i].LineString? then LineStringBody(rs[i].points) else Failure(InvalidGeometry), FlatRings(rs[i + 1..]))
  {
    assert rs[i..][1..] == rs[i + 1..];
  }

  /**
   * `Polygon._write_ewkb_body`: the count, then each ring's line-string body;
   * a child that is not a line string raises.
   */
  method WritePolygonBody(writer: Writer, rs: seq<Geometry>) returns (r: Outcome<Error>)
    modifies writer.stream
    ensures Emits(r, PolygonBody(rs), old(writer.stream.bytes), writer.stream.bytes)
  {
    ghost var start := writer.stream.bytes;
    r := writer.WriteInt(|rs|);
    if r.Fail? {
      return;
    }
    CatAppend(start, PackCount(|rs|).value, FlatRings(rs));
    for i := 0 to |rs|
      invariant start <= writer.stream.bytes
      invariant Cat(Success(writer.stream.bytes), FlatRings(rs[i..])) == Cat(Success(start), PolygonBody(rs))
    {
      FlatRingsFrom(rs, i);
      if !rs[i].LineString? {
        Stops(writer.stream.bytes, FlatRings(rs[i..]), start, PolygonBody(rs));
        return Fail(InvalidGeometry);
      }
      ghost var before := writer.stream.bytes;
      var e := WriteLineStringBody(writer, rs[i].points);
      if e.Fail? {
        Stops(before, FlatRings(rs[i..]), start, PolygonBody(rs));
        return e;
      }
      CatAppend(before, LineStringBody(rs[i].points).value, FlatRings(rs[i + 1..]));
    }
    assert rs[|rs|..] == [];
    Finishes(writer.stream.bytes, start, PolygonBody(rs));
  }

  /** The loops of the container writers, one member at a time. */
  lemma TaggedMembersFrom(gs: seq<Geometry>, k: CollectionKind, i: nat)
    requires i < |gs|
    ensures TaggedMembers(gs[i..], k)
      == Cat(if Admits(k, gs[i]) then Serialize(gs[i]) else Failure(InvalidGeometry), TaggedMembers(gs[i + 1..], k))
  {
    assert gs[i..][1..] == gs[i + 1..];
  }

  /**
   * `_write_ewkb_body` of MultiPoint, MultiLineString, MultiPolygon and
   * GeometryCollection: the count, then each member through `_write_ewkb`,
   * after the `isinstance` check of the container's kind (none for a
   * collection).
   */
  method WriteCollectionBody(writer: Writer, gs: seq<Geometry>, k: CollectionKind) returns (r: Outcome<Error>)
    modifies writer.stream
    ensures Emits(r, CollectionBody(gs, k), old(writer.stream.bytes), writer.stream.bytes)
    decreases gs, 1
  {
    ghost var start := writer.stream.bytes;
    r := writer.WriteInt(|gs|);
    if r.Fail? {
      return;
    }
    CatAppend(start, PackCount(|gs|).value, TaggedMembers(gs, k));
    for i := 0 to |gs|
      invariant start <= writer.stream.bytes
      invariant Cat(Success(writer.stream.bytes), TaggedMembers(gs[i..], k)) == Cat(Success(start), CollectionBody(gs, k))
    {
      TaggedMembersFrom(gs, k, i);
      if !Admits(k, gs[i]) {
        Stops(writer.stream.bytes, TaggedMembers(gs[i..], k), start, CollectionBody(gs, k));
        return Fail(InvalidGeometry);
      }
      ghost var before := writer.stream.bytes;
      var e := WriteMember(writer, gs[i]);
      if e.Fail? {
        Stops(before, TaggedMembers(gs[i..], k), start, CollectionBody(gs, k));
        return e;
      }
      CatAppend(before, Serialize(gs[i]).value, TaggedMembers(gs[i + 1..], k));
    }
    assert gs[|gs|..] == [];
    Finishes(writer.stream.bytes, start, CollectionBody(gs, k));
  }

  /** `Geometry._write_ewkb`: `g`'s header through a child writer on the same buffer, then its body. */
  method WriteMember(writer: Writer, g: Geometry) returns (r: Outcome<Error>)
    modifies writer.stream
    ensures Emits(r, Serialize(g), old(writer.stream.bytes), writer.stream.bytes)
    decreases g, 2
  {
    ghost var start := writer.stream.bytes;
    var child := writer.ChildWriter(g);
    if child.Failure? {
      return Fail(child.error);
    }
    ghost var middle := writer.stream.bytes;
    r := WriteBody(child.value, g);
    EmitsThen(SerializeHeader(g), SerializeBody(g), r, start, middle, writer.stream.bytes);
  }

  /** `g._write_ewkb_body(writer)`: the body writer of `g`'s class. */
  method WriteBody(writer: Writer, g: Geometry) returns (r: Outcome<Error>)
    modifies writer.stream
    ensures Emits(r, SerializeBody(g), old(writer.stream.bytes), writer.stream.bytes)
    decreases g, 0
  {
    match g
    case Point(_, _, _, _, _) =>
      WritePointBody(writer, g);
      r := Pass;
    case LineString(ps, _) =>
      r := WriteLineStringBody(writer, ps);
    case Polygon(rs, _) =>
      r := WritePolygonBody(writer, rs);
    case MultiPoint(ps, _) =>
      r := WriteCollectionBody(writer, ps, MultiPointKind);
    case MultiLineString(ls, _) =>
      r := WriteCollectionBody(writer, ls, MultiLineStringKind);
    case MultiPolygon(qs, _) =>
      r := WriteCollectionBody(writer, qs, MultiPolygonKind);
    case GeometryCollection(gs, _) =>
      r := WriteCollectionBody(writer, gs, AnyKind);
    case Unsupported(name) =>
      r := Fail(UnsupportedClass(name));
  }
}
