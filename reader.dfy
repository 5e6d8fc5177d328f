/**
 * The reader as the source runs it: an `_EWKBReader` over a `BytesIO` cursor
 * that every child reader shares, and the `_read_ewkb_body` class methods
 * that drive it.  Each method is proved against the function of `Decoding`
 * that describes it: it returns what that function returns for the stream's
 * contents and the cursor at the call, and leaves the cursor where the
 * function's end position says.
 */
module Reading {
  import opened Wrappers
  import opened Bytes
  import opened Geometries
  import opened Decoding

  /** `io.BytesIO` opened for reading: fixed contents and a cursor. */
  class Stream {
    const data: seq<byte>
    var pos: nat

    predicate Valid()
      reads this
    {
      pos <= |data|
    }

    constructor (data: seq<byte>)
      ensures this.data == data && pos == 0
    {
      this.data := data;
      pos := 0;
    }

    /** `read(n)`: the next `n` bytes, or all that remain when fewer do. */
    method Read(n: nat) returns (r: seq<byte>)
      requires Valid()
      modifies this
      ensures Valid()
      ensures pos == (if old(pos) + n <= |data| then old(pos) + n else |data|)
      ensures r == data[old(pos)..pos]
    {
      var end := if pos + n <= |data| then pos + n else |data|;
      r := data[pos..end];
      pos := end;
    }
  }

  /**
   * A method's result `r` and final cursor `end` are what the function
   * `spec` gives: its value and end position on success, its error otherwise.
   */
  predicate Tracks<T(==)>(r: Result<T, Error>, spec: Result<(T, nat), Error>, end: nat)
  {
    if spec.Success? then r == Success(spec.value.0) && end == spec.value.1
    else r == Failure(spec.error)
  }

  // ---------------------------------------------------------------------------
  // What each reading method achieves, as a predicate of the stream contents,
  // the cursor at the call, the result and the cursor after it.

  predicate ReadsGeometry(data: seq<byte>, pos: nat, r: Result<Geometry, Error>, end: nat)
  {
    pos <= |data| && Tracks(r, ParseGeometry(data, pos), end)
  }

  predicate ReadsPoint(data: seq<byte>, pos: nat, order: ByteOrder, hasZ: bool, hasM: bool, srid: Option<uint32>,
                       r: Result<Geometry, Error>, end: nat)
  {
    pos <= |data| && Tracks(r, ParsePointBody(data, pos, order, hasZ, hasM, srid), end)
  }

  predicate ReadsLineString(data: seq<byte>, pos: nat, order: ByteOrder, hasZ: bool, hasM: bool, srid: Option<uint32>,
                            r: Result<Geometry, Error>, end: nat)
  {
    pos <= |data| && Tracks(r, ParseLineStringBody(data, pos, order, hasZ, hasM, srid), end)
  }

  predicate ReadsPolygon(data: seq<byte>, pos: nat, order: ByteOrder, hasZ: bool, hasM: bool, srid: Option<uint32>,
                         r: Result<Geometry, Error>, end: nat)
  {
    pos <= |data| && Tracks(r, ParsePolygonBody(data, pos, order, hasZ, hasM, srid), end)
  }

  predicate ReadsCollection(data: seq<byte>, pos: nat, order: ByteOrder, srid: Option<uint32>, k: CollectionKind,
                            r: Result<Geometry, Error>, end: nat)
  {
    pos <= |data| && Tracks(r, ParseCollectionBody(data, pos, order, srid, k), end)
  }

  // ---------------------------------------------------------------------------
  // The list comprehension of `LineString._read_ewkb_body`

  /** One turn of the comprehension: the point read next fails the list, or is appended to those read. */
  lemma PointsStep(data: seq<byte>, pos: nat, order: ByteOrder, hasZ: bool, hasM: bool, n: nat, acc: seq<Geometry>,
                   r: Result<Geometry, Error>, end: nat)
    requires 0 < n && ReadsPoint(data, pos, order, hasZ, hasM, None, r, end)
    ensures r.Failure? ==> ParsePoints(data, pos, order, hasZ, hasM, n, acc) == Failure(r.error)
    ensures r.Success? ==> end <= |data|
    ensures r.Success? ==> ParsePoints(data, pos, order, hasZ, hasM, n, acc) == ParsePoints(data, end, order, hasZ, hasM, n - 1, acc + [r.value])
  {
  }

  /** The body is the count followed by the list, wrapped by the `LineString` constructor. */
  lemma LineStringParts(data: seq<byte>, start: nat, order: ByteOrder, hasZ: bool, hasM: bool, srid: Option<uint32>,
                    n: Result<uint32, Error>, items: Result<seq<Geometry>, Error>, end: nat)
    requires start <= |data| && n == ParseInt(data, start, order)
    requires n.Success? ==> Tracks(items, ParsePoints(data, start + 4, order, hasZ, hasM, n.value as nat, []), end)
    ensures n.Failure? ==> ReadsLineString(data, start, order, hasZ, hasM, srid, Failure(n.error), end)
    ensures n.Success? && items.Failure? ==> ReadsLineString(data, start, order, hasZ, hasM, srid, Failure(items.error), end)
    ensures n.Success? && items.Success? ==> ReadsLineString(data, start, order, hasZ, hasM, srid, Success(LineString(items.value, KeepSrid(srid))), end)
  {
  }

  // ---------------------------------------------------------------------------
  // The list comprehension of `Polygon._read_ewkb_body`

  /** One turn of the comprehension: the ring read next fails the list, or is appended to those read. */
  lemma RingsStep(data: seq<byte>, pos: nat, order: ByteOrder, hasZ: bool, hasM: bool, n: nat, acc: seq<Geometry>,
                  r: Result<Geometry, Error>, end: nat)
    requires 0 < n && ReadsLineString(data, pos, order, hasZ, hasM, None, r, end)
    ensures r.Failure? ==> ParseRings(data, pos, order, hasZ, hasM, n, acc) == Failure(r.error)
    ensures r.Success? ==> end <= |data|
    ensures r.Success? ==> ParseRings(data, pos, order, hasZ, hasM, n, acc) == ParseRings(data, end, order, hasZ, hasM, n - 1, acc + [r.value])
  {
  }

  /** The body is the count followed by the list, wrapped by the `Polygon` constructor. */
  lemma PolygonParts(data: seq<byte>, start: nat, order: ByteOrder, hasZ: bool, hasM: bool, srid: Option<uint32>,
                    n: Result<uint32, Error>, items: Result<seq<Geometry>, Error>, end: nat)
    requires start <= |data| && n == ParseInt(data, start, order)
    requires n.Success? ==> Tracks(items, ParseRings(data, start + 4, order, hasZ, hasM, n.value as nat, []), end)
    ensures n.Failure? ==> ReadsPolygon(data, start, order, hasZ, hasM, srid, Failure(n.error), end)
    ensures n.Success? && items.Failure? ==> ReadsPolygon(data, start, order, hasZ, hasM, srid, Failure(items.error), end)
    ensures n.Success? && items.Success? ==> ReadsPolygon(data, start, order, hasZ, hasM, srid, Success(Polygon(items.value, KeepSrid(srid))), end)
  {
  }

  // ---------------------------------------------------------------------------
  // The loop of the container body readers

  /** One turn of the loop: the member read next fails the body, is rejected, or is appended to those read. */
  lemma MembersStep(data: seq<byte>, pos: nat, n: nat, k: CollectionKind, acc: seq<Geometry>, r: Result<Geometry, Error>, end: nat)
    requires 0 < n && ReadsGeometry(data, pos, r, end)
    ensures r.Failure? ==> ParseMembers(data, pos, n, k, acc) == Failure(r.error)
    ensures r.Success? && !Admits(k, r.value) ==> ParseMembers(data, pos, n, k, acc) == Failure(InvalidGeometry)
    ensures r.Success? ==> pos < end <= |data|
    ensures r.Success? && Admits(k, r.value) ==> ParseMembers(data, pos, n, k, acc) == ParseMembers(data, end, n - 1, k, acc + [r.value])
  {
  }

  /** The body is the count followed by the members, assembled into the container of kind `k`. */
  lemma CollectionParts(data: seq<byte>, start: nat, order: ByteOrder, srid: Option<uint32>, k: CollectionKind,
                        n: Result<uint32, Error>, items: Result<seq<Geometry>, Error>, end: nat)
    requires start <= |data| && n == ParseInt(data, start, order)
    requires n.Success? ==> Tracks(items, ParseMembers(data, start + 4, n.value as nat, k, []), end)
    ensures n.Failure? ==> ReadsCollection(data, start, order, srid, k, Failure(n.error), end)
    ensures n.Success? && items.Failure? ==> ReadsCollection(data, start, order, srid, k, Failure(items.error), end)
    ensures n.Success? && items.Success? ==> ReadsCollection(data, start, order, srid, k, Success(Assemble(k, items.value, srid)), end)
  {
  }

  // ---------------------------------------------------------------------------
  // The header and the dispatch of `read_geometry`

  /** The byte read first is the byte order `ParseByteOrder` gives; any other byte, or none, fails the geometry. */
  lemma OrderRead(data: seq<byte>, start: nat, b: seq<byte>, end: nat)
    requires start <= |data| && b == data[start..if start + 1 <= |data| then start + 1 else |data|]
    ensures b == [0x00] ==> ParseByteOrder(data, start) == Success(BigEndian)
    ensures b == [0x01] ==> ParseByteOrder(data, start) == Success(LittleEndian)
    ensures b != [0x00] && b != [0x01] ==> ReadsGeometry(data, start, Failure(InvalidEncoding), end)
  {
    if start < |data| {
      assert b == [data[start]];
    }
  }

  /** A type word or SRID cut short fails the geometry. */
  lemma HeaderFails(data: seq<byte>, start: nat, order: ByteOrder, word: Result<uint32, Error>, srid: Result<uint32, Error>, end: nat)
    requires start <= |data| && ParseByteOrder(data, start) == Success(order)
    requires word == ParseInt(data, start + 1, order)
    requires word.Success? && SridFlag(word.value) ==> srid == ParseInt(data, start + 5, order)
    ensures word.Failure? ==> ReadsGeometry(data, start, Failure(word.error), end)
    ensures word.Success? && SridFlag(word.value) && srid.Failure? ==> ReadsGeometry(data, start, Failure(srid.error), end)
  {
  }

  /** The byte order, type word and SRID the reader took from the stream are the header `ParseHeader` gives. */
  lemma HeaderParsed(data: seq<byte>, start: nat, order: ByteOrder, word: uint32, sridWord: Result<uint32, Error>,
                     srid: Option<uint32>, end: nat)
    requires start <= |data| && ParseByteOrder(data, start) == Success(order)
    requires Success(word) == ParseInt(data, start + 1, order)
    requires SridFlag(word) ==> sridWord == ParseInt(data, start + 5, order) && sridWord.Success? && srid == Some(sridWord.value)
    requires !SridFlag(word) ==> srid == None
    requires end == start + (if SridFlag(word) then 9 else 5)
    ensures ParseHeader(data, start) == Success(Header(order, word, srid, end))
  {
  }

  /** The header fields the reader holds while it reads a body. */
  predicate Holds(h: Header, bodyStart: nat, order: ByteOrder, hasZ: bool, hasM: bool, srid: Option<uint32>)
  {
    h.end == bodyStart && h.order == order && ZFlag(h.word) == hasZ && MFlag(h.word) == hasM && h.srid == srid
  }

  /** The reader returned `r` and stopped at `end` where `ParseBody` reads the body that follows header `h`. */
  predicate ReadsBody(data: seq<byte>, h: Header, r: Result<Geometry, Error>, end: nat)
  {
    h.end <= |data| && Tracks(r, ParseBody(data, h), end)
  }

  /** A geometry is its header followed by the body that header announces. */
  lemma HeaderThenBody(data: seq<byte>, start: nat, h: Header, r: Result<Geometry, Error>, end: nat)
    requires start <= |data| && ParseHeader(data, start) == Success(h) && ReadsBody(data, h, r, end)
    ensures ReadsGeometry(data, start, r, end)
  {
  }

  /** The body of each base type is what the body reader of that type returns. */
  lemma DispatchPoint(data: seq<byte>, h: Header, order: ByteOrder, hasZ: bool, hasM: bool,
                      srid: Option<uint32>, r: Result<Geometry, Error>, end: nat)
    requires BaseType(h.word) == 1
    requires Holds(h, h.end, order, hasZ, hasM, srid) && ReadsPoint(data, h.end, order, hasZ, hasM, srid, r, end)
    ensures ReadsBody(data, h, r, end)
  {
  }

  lemma DispatchLineString(data: seq<byte>, h: Header, order: ByteOrder, hasZ: bool, hasM: bool,
                           srid: Option<uint32>, r: Result<Geometry, Error>, end: nat)
    requires BaseType(h.word) == 2
    requires Holds(h, h.end, order, hasZ, hasM, srid) && ReadsLineString(data, h.end, order, hasZ, hasM, srid, r, end)
    ensures ReadsBody(data, h, r, end)
  {
  }

  lemma DispatchPolygon(data: seq<byte>, h: Header, order: ByteOrder, hasZ: bool, hasM: bool,
                        srid: Option<uint32>, r: Result<Geometry, Error>, end: nat)
    requires BaseType(h.word) == 3
    requires Holds(h, h.end, order, hasZ, hasM, srid) && ReadsPolygon(data, h.end, order, hasZ, hasM, srid, r, end)
    ensures ReadsBody(data, h, r, end)
  {
  }

  lemma DispatchCollection(data: seq<byte>, h: Header, order: ByteOrder, hasZ: bool, hasM: bool,
                           srid: Option<uint32>, k: CollectionKind, r: Result<Geometry, Error>, end: nat)
    requires BaseType(h.word) == KindCode(k)
    requires Holds(h, h.end, order, hasZ, hasM, srid) && ReadsCollection(data, h.end, order, srid, k, r, end)
    ensures ReadsBody(data, h, r, end)
  {
  }

  lemma DispatchUnsupported(data: seq<byte>, h: Header, end: nat)
    requires h.end <= |data| && !(1 <= BaseType(h.word) <= 7)
    ensures ReadsBody(data, h, Failure(UnsupportedType(BaseType(h.word))), end)
  {
  }

  /** `_EWKBReader`: the shared stream, and the byte order and flags of the last header it read. */
  class Reader {
    const stream: Stream
    var order: ByteOrder
    var hasZ: bool
    var hasM: bool

    /** `_EWKBReader(stream)`; the header fields are set by the first `ReadGeometry`. */
    constructor (stream: Stream)
      ensures this.stream == stream
    {
      this.stream := stream;
      order, hasZ, hasM := LittleEndian, false, false;
    }

    /** `child_reader`: a new reader on the same stream, so the cursor is shared. */
    method ChildReader() returns (r: Reader)
      ensures fresh(r) && r.stream == stream
    {
      r := new Reader(stream);
    }

    /** `read_int`: four bytes in the reader's byte order; `struct.unpack` raises on a short read. */
    method ReadInt() returns (r: Result<uint32, Error>)
      requires stream.Valid()
      modifies stream
      ensures stream.Valid()
      ensures r == ParseInt(stream.data, old(stream.pos), order)
      ensures r.Success? ==> stream.pos == old(stream.pos) + 4
    {
      var b := stream.Read(4);
      if |b| < 4 {
        r := Failure(Truncated);
      } else {
        r := Success(Uint32At(order, b, 0));
      }
    }

    /** `read_double`: eight bytes in the reader's byte order. */
    method ReadDouble() returns (r: Result<Float64, Error>)
      requires stream.Valid()
      modifies stream
      ensures stream.Valid()
      ensures r == ParseDouble(stream.data, old(stream.pos), order)
      ensures r.Success? ==> stream.pos == old(stream.pos) + 8
    {
      var b := stream.Read(8);
      if |b| < 8 {
        r := Failure(Truncated);
      } else {
        r := Success(DoubleAt(order, b, 0));
      }
    }

    /**
     * `read_geometry`: the byte order, the type word (which sets the reader's
     * flags), the SRID when its bit is set, then the body of the base type.
     */
    method ReadGeometry() returns (r: Result<Geometry, Error>)
      requires stream.Valid()
      modifies this, stream
      ensures stream.Valid()
      ensures ReadsGeometry(stream.data, old(stream.pos), r, stream.pos)
      decreases |stream.data| - stream.pos, 2
    {
      ghost var data, start := stream.data, stream.pos;
      var b := stream.Read(1);
      OrderRead(data, start, b, stream.pos);
      if b == [0x00] {
        order := BigEndian;
      } else if b == [0x01] {
        order := LittleEndian;
      } else {
        return Failure(InvalidEncoding);
      }
      var word := ReadInt();
      var sridWord: Result<uint32, Error> := Failure(Truncated);
      if word.Success? && SridFlag(word.value) {
        sridWord := ReadInt();
      }
      HeaderFails(data, start, order, word, sridWord, stream.pos);
      var typeWord :- word;
      hasZ := ZFlag(typeWord);
      hasM := MFlag(typeWord);
      var srid: Option<uint32> := None;
      if SridFlag(typeWord) {
        var s :- sridWord;
        srid := Some(s);
      }
      HeaderParsed(data, start, order, typeWord, sridWord, srid, stream.pos);
      ghost var h := Header(order, typeWord, srid, stream.pos);
      r := ReadBody(typeWord, srid);
      HeaderThenBody(data, start, h, r, stream.pos);
    }

    /** The dispatch of `read_geometry` on the base type of `word`, whose flags the reader now holds. */
    method ReadBody(word: uint32, srid: Option<uint32>) returns (r: Result<Geometry, Error>)
      requires stream.Valid() && hasZ == ZFlag(word) && hasM == MFlag(word)
      modifies stream
      ensures stream.Valid()
      ensures ReadsBody(stream.data, Header(order, word, srid, old(stream.pos)), r, stream.pos)
      decreases |stream.data| - stream.pos, 1
    {
      ghost var data, h := stream.data, Header(order, word, srid, stream.pos);
      var code := BaseType(word);
      if code == 1 {
        r := ReadPointBody(this, srid);
        DispatchPoint(data, h, order, hasZ, hasM, srid, r, stream.pos);
      } else if code == 2 {
        r := ReadLineStringBody(this, srid);
        DispatchLineString(data, h, order, hasZ, hasM, srid, r, stream.pos);
      } else if code == 3 {
        r := ReadPolygonBody(this, srid);
        DispatchPolygon(data, h, order, hasZ, hasM, srid, r, stream.pos);
      } else if code == 4 {
        r := ReadCollectionBody(this, srid, MultiPointKind);
        DispatchCollection(data, h, order, hasZ, hasM, srid, MultiPointKind, r, stream.pos);
      } else if code == 5 {
        r := ReadCollectionBody(this, srid, MultiLineStringKind);
        DispatchCollection(data, h, order, hasZ, hasM, srid, MultiLineStringKind, r, stream.pos);
      } else if code == 6 {
        r := ReadCollectionBody(this, srid, MultiPolygonKind);
        DispatchCollection(data, h, order, hasZ, hasM, srid, MultiPolygonKind, r, stream.pos);
      } else if code == 7 {
        r := ReadCollectionBody(this, srid, AnyKind);
        DispatchCollection(data, h, order, hasZ, hasM, srid, AnyKind, r, stream.pos);
      } else {
        r := Failure(UnsupportedType(code));
        DispatchUnsupported(data, h, stream.pos);
      }
    }
  }

  /** `Point._read_ewkb_body`: x, y, then z and m when the reader's flags say they are there. */
  method ReadPointBody(reader: Reader, srid: Option<uint32>) returns (r: Result<Geometry, Error>)
    requires reader.stream.Valid()
    modifies reader.stream
    ensures reader.stream.Valid()
    ensures ReadsPoint(reader.stream.data, old(reader.stream.pos), reader.order, reader.hasZ, reader.hasM, srid, r, reader.stream.pos)
  {
    var x :- reader.ReadDouble();
    var y :- reader.ReadDouble();
    var z: Option<Float64> := None;
    if reader.hasZ {
      var d :- reader.ReadDouble();
      z := Some(d);
    }
    var m: Option<Float64> := None;
    if reader.hasM {
      var d :- reader.ReadDouble();
      m := Some(d);
    }
    r := Success(Point(x, y, z, m, srid));
  }

  /** The list comprehension of `LineString._read_ewkb_body`: `count` headerless points, each read with the reader's flags. */
  method ReadPoints(reader: Reader, count: nat) returns (r: Result<seq<Geometry>, Error>)
    requires reader.stream.Valid()
    modifies reader.stream
    ensures reader.stream.Valid()
    ensures Tracks(r, ParsePoints(reader.stream.data, old(reader.stream.pos), reader.order, reader.hasZ, reader.hasM, count, []), reader.stream.pos)
  {
    ghost var data, start := reader.stream.data, reader.stream.pos;
    ghost var order, hasZ, hasM := reader.order, reader.hasZ, reader.hasM;
    var items: seq<Geometry> := [];
    while |items| < count
      invariant reader.stream.Valid() && |items| <= count
      invariant ParsePoints(data, reader.stream.pos, order, hasZ, hasM, count - |items|, items)
        == ParsePoints(data, start, order, hasZ, hasM, count, [])
    {
      ghost var mid := reader.stream.pos;
      var e := ReadPointBody(reader, None);
      PointsStep(data, mid, order, hasZ, hasM, count - |items|, items, e, reader.stream.pos);
      var point :- e;
      items := items + [point];
    }
    r := Success(items);
  }

  /** `LineString._read_ewkb_body`: a count, then that many headerless points; the constructor keeps a nonzero SRID. */
  method ReadLineStringBody(reader: Reader, srid: Option<uint32>) returns (r: Result<Geometry, Error>)
    requires reader.stream.Valid()
    modifies reader.stream
    ensures reader.stream.Valid()
    ensures ReadsLineString(reader.stream.data, old(reader.stream.pos), reader.order, reader.hasZ, reader.hasM, srid, r, reader.stream.pos)
  {
    ghost var data, start := reader.stream.data, reader.stream.pos;
    var n := reader.ReadInt();
    if n.Failure? {
      LineStringParts(data, start, reader.order, reader.hasZ, reader.hasM, srid, n, Failure(n.error), reader.stream.pos);
      return Failure(n.error);
    }
    var items := ReadPoints(reader, n.value as nat);
    LineStringParts(data, start, reader.order, reader.hasZ, reader.hasM, srid, n, items, reader.stream.pos);
    var points :- items;
    r := Success(LineString(points, KeepSrid(srid)));
  }

  /** The list comprehension of `Polygon._read_ewkb_body`: `count` rings, each read as a line-string body. */
  method ReadRings(reader: Reader, count: nat) returns (r: Result<seq<Geometry>, Error>)
    requires reader.stream.Valid()
    modifies reader.stream
    ensures reader.stream.Valid()
    ensures Tracks(r, ParseRings(reader.stream.data, old(reader.stream.pos), reader.order, reader.hasZ, reader.hasM, count, []), reader.stream.pos)
  {
    ghost var data, start := reader.stream.data, reader.stream.pos;
    ghost var order, hasZ, hasM := reader.order, reader.hasZ, reader.hasM;
    var items: seq<Geometry> := [];
    while |items| < count
      invariant reader.stream.Valid() && |items| <= count
      invariant ParseRings(data, reader.stream.pos, order, hasZ, hasM, count - |items|, items)
        == ParseRings(data, start, order, hasZ, hasM, count, [])
    {
      ghost var mid := reader.stream.pos;
      var e := ReadLineStringBody(reader, None);
      RingsStep(data, mid, order, hasZ, hasM, count - |items|, items, e, reader.stream.pos);
      var ring :- e;
      items := items + [ring];
    }
    r := Success(items);
  }

  /** `Polygon._read_ewkb_body`: a count, then that many rings; the constructor keeps a nonzero SRID. */
  method ReadPolygonBody(reader: Reader, srid: Option<uint32>) returns (r: Result<Geometry, Error>)
    requires reader.stream.Valid()
    modifies reader.stream
    ensures reader.stream.Valid()
    ensures ReadsPolygon(reader.stream.data, old(reader.stream.pos), reader.order, reader.hasZ, reader.hasM, srid, r, reader.stream.pos)
  {
    ghost var data, start := reader.stream.data, reader.stream.pos;
    var n := reader.ReadInt();
    if n.Failure? {
      PolygonParts(data, start, reader.order, reader.hasZ, reader.hasM, srid, n, Failure(n.error), reader.stream.pos);
      return Failure(n.error);
    }
    var items := ReadRings(reader, n.value as nat);
    PolygonParts(data, start, reader.order, reader.hasZ, reader.hasM, srid, n, items, reader.stream.pos);
    var rings :- items;
    r := Success(Polygon(rings, KeepSrid(srid)));
  }

  /**
   * The body readers of MultiPoint, MultiLineString, MultiPolygon and
   * GeometryCollection: a count, then that many members, each read by a
   * child reader with its own header and checked against the container's
   * kind before it is appended (a collection admits every kind).
   */
  method ReadCollectionBody(reader: Reader, srid: Option<uint32>, k: CollectionKind) returns (r: Result<Geometry, Error>)
    requires reader.stream.Valid()
    modifies reader.stream
    ensures reader.stream.Valid()
    ensures ReadsCollection(reader.stream.data, old(reader.stream.pos), reader.order, srid, k, r, reader.stream.pos)
    decreases |reader.stream.data| - reader.stream.pos, 0
  {
    ghost var data, start := reader.stream.data, reader.stream.pos;
    ghost var order := reader.order;
    var n := reader.ReadInt();
    if n.Failure? {
      CollectionParts(data, start, order, srid, k, n, Failure(n.error), reader.stream.pos);
      return Failure(n.error);
    }
    var count := n.value as nat;
    var members: seq<Geometry> := [];
    while |members| < count
      invariant reader.stream.Valid() && reader.order == order && |members| <= count && start + 4 <= reader.stream.pos
      invariant ParseMembers(data, reader.stream.pos, count - |members|, k, members)
        == ParseMembers(data, start + 4, count, k, [])
    {
      ghost var mid := reader.stream.pos;
      var child := reader.ChildReader();
      var g := child.ReadGeometry();
      MembersStep(data, mid, count - |members|, k, members, g, reader.stream.pos);
      if g.Failure? {
        CollectionParts(data, start, order, srid, k, n, Failure(g.error), reader.stream.pos);
        return Failure(g.error);
      }
      var member := g.value;
      if !Admits(k, member) {
        CollectionParts(data, start, order, srid, k, n, Failure(InvalidGeometry), reader.stream.pos);
        return Failure(InvalidGeometry);
      }
      members := members + [member];
    }
    CollectionParts(data, start, order, srid, k, n, Success(members), reader.stream.pos);
    r := Success(Assemble(k, members, srid));
  }

  /** `Geometry._read_ewkb`: a fresh reader on the same stream reads one complete geometry. */
  method ReadMember(reader: Reader) returns (r: Result<Geometry, Error>)
    requires reader.stream.Valid()
    modifies reader.stream
    ensures reader.stream.Valid()
    ensures ReadsGeometry(reader.stream.data, old(reader.stream.pos), r, reader.stream.pos)
  {
    var child := new Reader(reader.stream);
    r := child.ReadGeometry();
  }
}
