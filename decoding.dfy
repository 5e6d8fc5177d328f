/**
 * What `_EWKBReader.read_geometry` and the `_read_ewkb_body` class methods
 * compute, as functions of the whole byte stream and the cursor position.
 * Each function returns the value read together with the position after it,
 * which is where the shared `BytesIO` cursor is left.
 */
module Decoding {
  import opened Wrappers
  import opened Bytes
  import opened Geometries

  /** The first byte of a geometry: 0x00 is big-endian, 0x01 little-endian, anything else (or nothing) raises. */
  function ParseByteOrder(data: seq<byte>, pos: nat): (r: Result<ByteOrder, Error>)
    ensures r.Success? <==> pos < |data| && data[pos] <= 1
    ensures r.Success? ==> (r.value == LittleEndian <==> data[pos] == 1)
    ensures r.Failure? ==> r.error == InvalidEncoding
  {
    if pos < |data| && data[pos] == 0 then Success(BigEndian)
    else if pos < |data| && data[pos] == 1 then Success(LittleEndian)
    else Failure(InvalidEncoding)
  }

  /** `read_int`: four bytes in the declared order, or a truncation error. */
  function ParseInt(data: seq<byte>, pos: nat, order: ByteOrder): (r: Result<uint32, Error>)
    ensures r.Success? <==> pos + 4 <= |data|
    ensures r.Failure? ==> r.error == Truncated
  {
    if pos + 4 <= |data| then Success(Uint32At(order, data, pos)) else Failure(Truncated)
  }

  /** `read_double`: eight bytes in the declared order, or a truncation error. */
  function ParseDouble(data: seq<byte>, pos: nat, order: ByteOrder): (r: Result<Float64, Error>)
    ensures r.Success? <==> pos + 8 <= |data|
    ensures r.Failure? ==> r.error == Truncated
  {
    if pos + 8 <= |data| then Success(DoubleAt(order, data, pos)) else Failure(Truncated)
  }

  /** The fields of a geometry header and the position of the body that follows it. */
  datatype Header = Header(order: ByteOrder, word: uint32, srid: Option<uint32>, end: nat)

  /** The byte order, the type word, and the SRID exactly when the SRID bit is set. */
  function ParseHeader(data: seq<byte>, pos: nat): (r: Result<Header, Error>)
    ensures r.Success? ==> ParseByteOrder(data, pos) == Success(r.value.order)
    ensures r.Success? ==> r.value.srid.Some? == SridFlag(r.value.word)
    ensures r.Success? ==> r.value.end == pos + (if SridFlag(r.value.word) then 9 else 5) <= |data|
    ensures r.Success? ==> r.value.word == Uint32At(r.value.order, data, pos + 1)
    ensures r.Success? && SridFlag(r.value.word) ==> r.value.srid.value == Uint32At(r.value.order, data, pos + 5)
    ensures ParseByteOrder(data, pos).Failure? ==> r == Failure(InvalidEncoding)
    ensures ParseByteOrder(data, pos).Success? ==> (r.Success? <==> pos + 5 <= |data| && (SridFlag(Uint32At(ParseByteOrder(data, pos).value, data, pos + 1)) ==> pos + 9 <= |data|))
  {
    var order :- ParseByteOrder(data, pos);
    var word :- ParseInt(data, pos + 1, order);
    if SridFlag(word) then
      var srid :- ParseInt(data, pos + 5, order);
      Success(Header(order, word, Some(srid), pos + 9))
    else
      Success(Header(order, word, None, pos + 5))
  }

  /**
   * `Point._read_ewkb_body`: x, y, then z if the header has Z, then m if it
   * has M.  Every coordinate is a `read_double`, so the body fails, with the
   * truncation error, exactly when the coordinates it needs run past the end.
   */
  function ParsePointBody(data: seq<byte>, pos: nat, order: ByteOrder, hasZ: bool, hasM: bool, srid: Option<uint32>)
    : (r: Result<(Geometry, nat), Error>)
    ensures var size := 16 + (if hasZ then 8 else 0) + (if hasM then 8 else 0);
      (r.Success? <==> pos + size <= |data|) && (r.Success? ==> r.value.1 == pos + size)
    ensures r.Success? ==> var p := r.value.0;
      p.Point? && p.z.Some? == hasZ && p.m.Some? == hasM && p.srid == srid
    ensures r.Success? ==> var p := r.value.0;
      && p.x == DoubleAt(order, data, pos)
      && p.y == DoubleAt(order, data, pos + 8)
      && (hasZ ==> p.z.value == DoubleAt(order, data, pos + 16))
      && (hasM ==> p.m.value == DoubleAt(order, data, pos + 16 + (if hasZ then 8 else 0)))
    ensures r.Failure? ==> r.error == Truncated
  {
    var zEnd := pos + 16 + (if hasZ then 8 else 0);
    var end := zEnd + (if hasM then 8 else 0);
    if end <= |data| then
      var x, y := DoubleAt(order, data, pos), DoubleAt(order, data, pos + 8);
      var z := if hasZ then Some(DoubleAt(order, data, pos + 16)) else None;
      var m := if hasM then Some(DoubleAt(order, data, zEnd)) else None;
      Success((Point(x, y, z, m, srid), end))
    else
      Failure(Truncated)
  }

  /**
   * The list comprehension of `LineString._read_ewkb_body`: `count` more
   * headerless points, appended one by one to the points `acc` already read.
   */
  function ParsePoints(data: seq<byte>, pos: nat, order: ByteOrder, hasZ: bool, hasM: bool, count: nat, acc: seq<Geometry>)
    : (r: Result<(seq<Geometry>, nat), Error>)
    requires pos <= |data|
    ensures r.Success? ==> |r.value.0| == |acc| + count && pos <= r.value.1 <= |data|
    decreases count
  {
    if count == 0 then Success((acc, pos))
    else
      var first :- ParsePointBody(data, pos, order, hasZ, hasM, None);
      ParsePoints(data, first.1, order, hasZ, hasM, count - 1, acc + [first.0])
  }

  /** `LineString._read_ewkb_body`: a count, then that many flat points; the constructor drops a zero SRID. */
  function ParseLineStringBody(data: seq<byte>, pos: nat, order: ByteOrder, hasZ: bool, hasM: bool, srid: Option<uint32>)
    : (r: Result<(Geometry, nat), Error>)
    requires pos <= |data|
    ensures r.Success? ==> r.value.0.LineString? && r.value.0.srid == KeepSrid(srid)
    ensures r.Success? ==> pos + 4 <= r.value.1 <= |data|
    ensures pos + 4 > |data| ==> r == Failure(Truncated)
  {
    var count :- ParseInt(data, pos, order);
    var ps :- ParsePoints(data, pos + 4, order, hasZ, hasM, count as nat, []);
    Success((LineString(ps.0, KeepSrid(srid)), ps.1))
  }

  /**
   * The list comprehension of `Polygon._read_ewkb_body`: `count` more rings,
   * each a line-string body without header, appended to the rings `acc`.
   */
  function ParseRings(data: seq<byte>, pos: nat, order: ByteOrder, hasZ: bool, hasM: bool, count: nat, acc: seq<Geometry>)
    : (r: Result<(seq<Geometry>, nat), Error>)
    requires pos <= |data|
    ensures r.Success? ==> |r.value.0| == |acc| + count && pos <= r.value.1 <= |data|
    decreases count
  {
    if count == 0 then Success((acc, pos))
    else
      var first :- ParseLineStringBody(data, pos, order, hasZ, hasM, None);
      ParseRings(data, first.1, order, hasZ, hasM, count - 1, acc + [first.0])
  }

  /** A list of rings that is not exhausted is its first ring followed by the rest. */
  lemma RingsCons(data: seq<byte>, pos: nat, order: ByteOrder, hasZ: bool, hasM: bool, n: nat, acc: seq<Geometry>)
    requires pos <= |data| && 0 < n && ParseLineStringBody(data, pos, order, hasZ, hasM, None).Success?
    ensures var first := ParseLineStringBody(data, pos, order, hasZ, hasM, None).value;
      ParseRings(data, pos, order, hasZ, hasM, n, acc) == ParseRings(data, first.1, order, hasZ, hasM, n - 1, acc + [first.0])
  {
  }

  /** `Polygon._read_ewkb_body`: a count, then that many flat rings. */
  function ParsePolygonBody(data: seq<byte>, pos: nat, order: ByteOrder, hasZ: bool, hasM: bool, srid: Option<uint32>)
    : (r: Result<(Geometry, nat), Error>)
    requires pos <= |data|
    ensures r.Success? ==> r.value.0.Polygon? && r.value.0.srid == KeepSrid(srid)
    ensures r.Success? ==> pos + 4 <= r.value.1 <= |data|
    ensures pos + 4 > |data| ==> r == Failure(Truncated)
  {
    var count :- ParseInt(data, pos, order);
    var rs :- ParseRings(data, pos + 4, order, hasZ, hasM, count as nat, []);
    Success((Polygon(rs.0, KeepSrid(srid)), rs.1))
  }

  /** The constructor call `cls(children, srid)` that ends a container's body reader. */
  function Assemble(k: CollectionKind, children: seq<Geometry>, srid: Option<uint32>): (g: Geometry)
    ensures g.IsComposite() && g.Elements() == children && g.srid == KeepSrid(srid)
    ensures g.MultiPoint? <==> k == MultiPointKind
    ensures g.MultiLineString? <==> k == MultiLineStringKind
    ensures g.MultiPolygon? <==> k == MultiPolygonKind
    ensures g.GeometryCollection? <==> k == AnyKind
  {
    match k
    case MultiPointKind => MultiPoint(children, KeepSrid(srid))
    case MultiLineStringKind => MultiLineString(children, KeepSrid(srid))
    case MultiPolygonKind => MultiPolygon(children, KeepSrid(srid))
    case AnyKind => GeometryCollection(children, KeepSrid(srid))
  }

  /** `read_geometry`: a header, then the body of the kind its base type names. */
  function ParseGeometry(data: seq<byte>, pos: nat): (r: Result<(Geometry, nat), Error>)
    requires pos <= |data|
    ensures r.Success? ==> pos < r.value.1 <= |data|
    decreases |data| - pos, 1, 0
  {
    var h :- ParseHeader(data, pos);
    ParseBody(data, h)
  }

  /**
   * The dispatch of `read_geometry` on the masked base type.  The Z and M
   * flags govern only the flat children read with this header; every kind
   * but `Point` passes the SRID through a constructor that drops 0.
   */
  function ParseBody(data: seq<byte>, h: Header): (r: Result<(Geometry, nat), Error>)
    requires h.end <= |data|
    ensures r.Success? ==> h.end < r.value.1 <= |data|
    ensures r.Success? ==> TypeCode(r.value.0) == Success(BaseType(h.word))
    ensures !(1 <= BaseType(h.word) <= 7) ==> r == Failure(UnsupportedType(BaseType(h.word)))
    decreases |data| - h.end + 1, 0, 0
  {
    var hasZ, hasM, code := ZFlag(h.word), MFlag(h.word), BaseType(h.word);
    if code == 1 then ParsePointBody(data, h.end, h.order, hasZ, hasM, h.srid)
    else if code == 2 then ParseLineStringBody(data, h.end, h.order, hasZ, hasM, h.srid)
    else if code == 3 then ParsePolygonBody(data, h.end, h.order, hasZ, hasM, h.srid)
    else if code == 4 then ParseCollectionBody(data, h.end, h.order, h.srid, MultiPointKind)
    else if code == 5 then ParseCollectionBody(data, h.end, h.order, h.srid, MultiLineStringKind)
    else if code == 6 then ParseCollectionBody(data, h.end, h.order, h.srid, MultiPolygonKind)
    else if code == 7 then ParseCollectionBody(data, h.end, h.order, h.srid, AnyKind)
    else Failure(UnsupportedType(code))
  }

  /** The base type code `read_geometry` maps to each container class. */
  function KindCode(k: CollectionKind): (code: uint32)
    ensures 4 <= code <= 7
  {
    match k
    case MultiPointKind => 4
    case MultiLineStringKind => 5
    case MultiPolygonKind => 6
    case AnyKind => 7
  }

  /** A header whose base type is 3 announces a polygon body. */
  lemma PolygonDispatch(data: seq<byte>, h: Header)
    requires h.end <= |data| && BaseType(h.word) == 3
    ensures ParseBody(data, h) == ParsePolygonBody(data, h.end, h.order, ZFlag(h.word), MFlag(h.word), h.srid)
  {
  }

  /** A header whose base type is a container's code announces that container's body. */
  lemma CollectionDispatch(data: seq<byte>, h: Header, k: CollectionKind)
    requires h.end <= |data| && BaseType(h.word) == KindCode(k)
    ensures ParseBody(data, h) == ParseCollectionBody(data, h.end, h.order, h.srid, k)
  {
  }

  /** The body of MultiPoint, MultiLineString, MultiPolygon and GeometryCollection: a count, then headed members. */
  function ParseCollectionBody(data: seq<byte>, pos: nat, order: ByteOrder, srid: Option<uint32>, k: CollectionKind)
    : (r: Result<(Geometry, nat), Error>)
    requires pos <= |data|
    ensures r.Success? ==> r.value.0.IsComposite() && r.value.0 == Assemble(k, r.value.0.Elements(), srid)
    ensures r.Success? ==> pos + 4 <= r.value.1 <= |data|
    ensures pos + 4 > |data| ==> r == Failure(Truncated)
    decreases |data| - pos, 3, 0
  {
    var count :- ParseInt(data, pos, order);
    var ms :- ParseMembers(data, pos + 4, count as nat, k, []);
    Success((Assemble(k, ms.0, srid), ms.1))
  }

  /**
   * The members of a container: `count` more complete geometries, each read
   * by a child reader with its own byte order and flags, checked against the
   * container's kind as soon as it is read, and appended to `acc`.
   */
  function ParseMembers(data: seq<byte>, pos: nat, count: nat, k: CollectionKind, acc: seq<Geometry>)
    : (r: Result<(seq<Geometry>, nat), Error>)
    requires pos <= |data|
    ensures r.Success? ==> |r.value.0| == |acc| + count && pos <= r.value.1 <= |data|
    decreases |data| - pos, 2, count
  {
    if count == 0 then Success((acc, pos))
    else
      var first :- ParseGeometry(data, pos);
      if !Admits(k, first.0) then Failure(InvalidGeometry)
      else ParseMembers(data, first.1, count - 1, k, acc + [first.0])
  }

  // ---------------------------------------------------------------------------
  // What the decoder builds

  /** Every point read has the header's dimensions and no SRID, so the list stays flat if `acc` is. */
  lemma {:induction false} PointsFlat(data: seq<byte>, pos: nat, order: ByteOrder, hasZ: bool, hasM: bool, count: nat, acc: seq<Geometry>)
    requires pos <= |data| && ParsePoints(data, pos, order, hasZ, hasM, count, acc).Success?
    requires forall p | p in acc :: FlatPoint(p, hasZ, hasM)
    ensures forall p | p in ParsePoints(data, pos, order, hasZ, hasM, count, acc).value.0 :: FlatPoint(p, hasZ, hasM)
    decreases count
  {
    if count > 0 {
      var first := ParsePointBody(data, pos, order, hasZ, hasM, None).value;
      PointsFlat(data, first.1, order, hasZ, hasM, count - 1, acc + [first.0]);
    }
  }

  /** A line string read as a body holds flat points of the header's dimensions. */
  lemma LineStringFlat(data: seq<byte>, pos: nat, order: ByteOrder, hasZ: bool, hasM: bool, srid: Option<uint32>)
    requires pos <= |data| && ParseLineStringBody(data, pos, order, hasZ, hasM, srid).Success?
    ensures forall p | p in ParseLineStringBody(data, pos, order, hasZ, hasM, srid).value.0.points :: FlatPoint(p, hasZ, hasM)
  {
    var count := ParseInt(data, pos, order).value as nat;
    PointsFlat(data, pos + 4, order, hasZ, hasM, count, []);
  }

  /** Every ring read is a flat ring of the header's dimensions, so the list stays flat if `acc` is. */
  lemma {:induction false} RingsFlat(data: seq<byte>, pos: nat, order: ByteOrder, hasZ: bool, hasM: bool, count: nat, acc: seq<Geometry>)
    requires pos <= |data| && ParseRings(data, pos, order, hasZ, hasM, count, acc).Success?
    requires forall q | q in acc :: FlatRing(q, hasZ, hasM)
    ensures forall q | q in ParseRings(data, pos, order, hasZ, hasM, count, acc).value.0 :: FlatRing(q, hasZ, hasM)
    decreases count
  {
    if count > 0 {
      var first := ParseLineStringBody(data, pos, order, hasZ, hasM, None).value;
      LineStringFlat(data, pos, order, hasZ, hasM, None);
      RingsFlat(data, first.1, order, hasZ, hasM, count - 1, acc + [first.0]);
    }
  }

  /** A polygon read as a body holds flat rings of the header's dimensions. */
  lemma PolygonFlat(data: seq<byte>, pos: nat, order: ByteOrder, hasZ: bool, hasM: bool, srid: Option<uint32>)
    requires pos <= |data| && ParsePolygonBody(data, pos, order, hasZ, hasM, srid).Success?
    ensures forall q | q in ParsePolygonBody(data, pos, order, hasZ, hasM, srid).value.0.rings :: FlatRing(q, hasZ, hasM)
  {
    var count := ParseInt(data, pos, order).value as nat;
    RingsFlat(data, pos + 4, order, hasZ, hasM, count, []);
  }

  /** The container admits every member read, so the list holds only admitted kinds if `acc` does. */
  lemma {:induction false} MembersAdmitted(data: seq<byte>, pos: nat, count: nat, k: CollectionKind, acc: seq<Geometry>)
    requires pos <= |data| && ParseMembers(data, pos, count, k, acc).Success?
    requires forall c | c in acc :: Admits(k, c)
    ensures forall c | c in ParseMembers(data, pos, count, k, acc).value.0 :: Admits(k, c)
    decreases count
  {
    if count > 0 {
      var first := ParseGeometry(data, pos).value;
      MembersAdmitted(data, first.1, count - 1, k, acc + [first.0]);
    }
  }

  /** A container read as a body holds only members of the kinds it admits. */
  lemma CollectionAdmitted(data: seq<byte>, pos: nat, order: ByteOrder, srid: Option<uint32>, k: CollectionKind)
    requires pos <= |data| && ParseCollectionBody(data, pos, order, srid, k).Success?
    ensures forall c | c in ParseCollectionBody(data, pos, order, srid, k).value.0.Elements() :: Admits(k, c)
  {
    var count := ParseInt(data, pos, order).value as nat;
    MembersAdmitted(data, pos + 4, count, k, []);
  }

  // ---------------------------------------------------------------------------
  // Where the children lie

  /** A sequence that starts with `acc + [x]` starts with `acc` and has `x` next. */
  lemma PrefixStep(items: seq<Geometry>, acc: seq<Geometry>, x: Geometry)
    requires |acc| < |items| && items[..|acc| + 1] == acc + [x]
    ensures items[..|acc|] == acc && items[|acc|] == x
  {
    assert items[..|acc|] == items[..|acc| + 1][..|acc|];
    assert items[|acc|] == items[..|acc| + 1][|acc|];
  }

  /** From element `from` on, `items` are headerless point bodies lying between consecutive `ends`. */
  predicate PointsFrom(data: seq<byte>, order: ByteOrder, hasZ: bool, hasM: bool, items: seq<Geometry>, from: nat, ends: seq<nat>)
  {
    && 1 <= |ends| && from + |ends| - 1 == |items|
    && forall i | 0 <= i < |ends| - 1 ::
         ParsePointBody(data, ends[i], order, hasZ, hasM, None) == Success((items[from + i], ends[i + 1]))
  }

  /** One more point body in front. */
  lemma PointsFromCons(data: seq<byte>, order: ByteOrder, hasZ: bool, hasM: bool, items: seq<Geometry>, from: nat, p: nat, tail: seq<nat>)
    requires 0 < from && PointsFrom(data, order, hasZ, hasM, items, from, tail)
    requires ParsePointBody(data, p, order, hasZ, hasM, None) == Success((items[from - 1], tail[0]))
    ensures PointsFrom(data, order, hasZ, hasM, items, from - 1, [p] + tail)
  {
    var ends := [p] + tail;
    forall i | 0 < i < |ends| - 1
      ensures ParsePointBody(data, ends[i], order, hasZ, hasM, None) == Success((items[from - 1 + i], ends[i + 1]))
    {
      assert ends[i] == tail[i - 1] && ends[i + 1] == tail[i] && from - 1 + i == from + (i - 1);
    }
  }

  /** Positions one stride `s` apart from `pos + s` are one stride apart from `pos` once `pos` is put in front. */
  lemma StridedEnds(pos: nat, s: nat, tail: seq<nat>)
    requires forall i | 0 <= i < |tail| :: tail[i] == (pos + s) + i * s
    ensures forall i | 0 <= i < |tail| + 1 :: ([pos] + tail)[i] == pos + i * s
  {
    forall i | 0 < i < |tail| + 1
      ensures ([pos] + tail)[i] == pos + i * s
    {
      assert ([pos] + tail)[i] == tail[i - 1];
      StrideShift(pos, s, i - 1);
    }
  }

  /** A list of points that is not exhausted is its first point, one stride long, followed by the rest. */
  lemma PointsStep(data: seq<byte>, pos: nat, order: ByteOrder, hasZ: bool, hasM: bool, count: nat, acc: seq<Geometry>)
    returns (first: (Geometry, nat))
    requires 0 < count && pos <= |data| && ParsePoints(data, pos, order, hasZ, hasM, count, acc).Success?
    ensures ParsePointBody(data, pos, order, hasZ, hasM, None) == Success(first)
    ensures first.1 == pos + PointSize(hasZ, hasM) <= |data|
    ensures ParsePoints(data, pos, order, hasZ, hasM, count, acc)
      == ParsePoints(data, first.1, order, hasZ, hasM, count - 1, acc + [first.0])
  {
    first := ParsePointBody(data, pos, order, hasZ, hasM, None).value;
  }

  /**
   * The points of a line string have no header: they are point bodies in the
   * parent's byte order and dimensions, the `i`-th from `ends[i]` to
   * `ends[i + 1]`, and `ends[i]` lies `i` strides after the first.  The
   * points already read stay in front.
   */
  lemma {:induction false} PointsLayout(data: seq<byte>, pos: nat, order: ByteOrder, hasZ: bool, hasM: bool, count: nat, acc: seq<Geometry>)
    returns (ends: seq<nat>)
    requires pos <= |data| && ParsePoints(data, pos, order, hasZ, hasM, count, acc).Success?
    ensures var r := ParsePoints(data, pos, order, hasZ, hasM, count, acc).value;
      && r.0[..|acc|] == acc
      && |ends| == count + 1 && ends[0] == pos && ends[count] == r.1
      && PointsFrom(data, order, hasZ, hasM, r.0, |acc|, ends)
      && forall i | 0 <= i < |ends| :: ends[i] == pos + i * PointSize(hasZ, hasM)
    decreases count
  {
    var r := ParsePoints(data, pos, order, hasZ, hasM, count, acc).value;
    if count == 0 {
      ends := [pos];
    } else {
      var first := PointsStep(data, pos, order, hasZ, hasM, count, acc);
      var acc' := acc + [first.0];
      var tail := PointsLayout(data, first.1, order, hasZ, hasM, count - 1, acc');
      PrefixStep(r.0, acc, first.0);
      ends := [pos] + tail;
      PointsFromCons(data, order, hasZ, hasM, r.0, |acc'|, pos, tail);
      StridedEnds(pos, PointSize(hasZ, hasM), tail);
    }
  }

  /**
   * A line-string body is the count, then that many points without headers,
   * in the parent's byte order and dimensions, at a fixed stride: it is
   * `4 + n * size` bytes long.
   */
  lemma LineStringLayout(data: seq<byte>, pos: nat, order: ByteOrder, hasZ: bool, hasM: bool, srid: Option<uint32>)
    requires pos <= |data| && ParseLineStringBody(data, pos, order, hasZ, hasM, srid).Success?
    ensures var r, s := ParseLineStringBody(data, pos, order, hasZ, hasM, srid).value, PointSize(hasZ, hasM);
      && |r.0.points| == Uint32At(order, data, pos)
      && r.1 == pos + 4 + |r.0.points| * s
      && forall i | 0 <= i < |r.0.points| ::
           ParsePointBody(data, pos + 4 + i * s, order, hasZ, hasM, None) == Success((r.0.points[i], pos + 4 + (i + 1) * s))
  {
    var count := ParseInt(data, pos, order).value as nat;
    var ends := PointsLayout(data, pos + 4, order, hasZ, hasM, count, []);
    var ps := ParsePoints(data, pos + 4, order, hasZ, hasM, count, []).value;
    var r := ParseLineStringBody(data, pos, order, hasZ, hasM, srid).value;
    assert r.0.points == ps.0 && r.1 == ps.1;
    forall i | 0 <= i < |r.0.points|
      ensures ParsePointBody(data, pos + 4 + i * PointSize(hasZ, hasM), order, hasZ, hasM, None)
        == Success((r.0.points[i], pos + 4 + (i + 1) * PointSize(hasZ, hasM)))
    {
      assert ends[i] == pos + 4 + i * PointSize(hasZ, hasM);
      assert ends[i + 1] == pos + 4 + (i + 1) * PointSize(hasZ, hasM);
      assert ParsePointBody(data, ends[i], order, hasZ, hasM, None) == Success((ps.0[0 + i], ends[i + 1]));
    }
  }

  /** From element `from` on, `items` are headerless line-string bodies lying between consecutive `ends`. */
  predicate RingsFrom(data: seq<byte>, order: ByteOrder, hasZ: bool, hasM: bool, items: seq<Geometry>, from: nat, ends: seq<nat>)
  {
    && 1 <= |ends| && from + |ends| - 1 == |items|
    && forall i | 0 <= i < |ends| - 1 ::
         ends[i] <= |data| && ParseLineStringBody(data, ends[i], order, hasZ, hasM, None) == Success((items[from + i], ends[i + 1]))
  }

  /** One more ring in front. */
  lemma RingsFromCons(data: seq<byte>, order: ByteOrder, hasZ: bool, hasM: bool, items: seq<Geometry>, from: nat, p: nat, tail: seq<nat>)
    requires 0 < from && RingsFrom(data, order, hasZ, hasM, items, from, tail)
    requires p <= |data| && ParseLineStringBody(data, p, order, hasZ, hasM, None) == Success((items[from - 1], tail[0]))
    ensures RingsFrom(data, order, hasZ, hasM, items, from - 1, [p] + tail)
  {
    var ends := [p] + tail;
    forall i | 0 < i < |ends| - 1
      ensures ends[i] <= |data| && ParseLineStringBody(data, ends[i], order, hasZ, hasM, None) == Success((items[from - 1 + i], ends[i + 1]))
    {
      assert ends[i] == tail[i - 1] && ends[i + 1] == tail[i] && from - 1 + i == from + (i - 1);
    }
  }

  /**
   * The rings of a polygon lie one after the other: the `i`-th one is a
   * line-string body without header, in the parent's byte order and
   * dimensions, from `ends[i]` to `ends[i + 1]`.  The rings already read stay
   * in front.
   */
  lemma {:induction false} RingsLayout(data: seq<byte>, pos: nat, order: ByteOrder, hasZ: bool, hasM: bool, count: nat, acc: seq<Geometry>)
    returns (ends: seq<nat>)
    requires pos <= |data| && ParseRings(data, pos, order, hasZ, hasM, count, acc).Success?
    ensures var r := ParseRings(data, pos, order, hasZ, hasM, count, acc).value;
      && r.0[..|acc|] == acc
      && |ends| == count + 1 && ends[0] == pos && ends[count] == r.1
      && RingsFrom(data, order, hasZ, hasM, r.0, |acc|, ends)
    decreases count
  {
    var r := ParseRings(data, pos, order, hasZ, hasM, count, acc).value;
    if count == 0 {
      ends := [pos];
    } else {
      var first := ParseLineStringBody(data, pos, order, hasZ, hasM, None).value;
      var acc' := acc + [first.0];
      var tail := RingsLayout(data, first.1, order, hasZ, hasM, count - 1, acc');
      assert r == ParseRings(data, first.1, order, hasZ, hasM, count - 1, acc').value;
      PrefixStep(r.0, acc, first.0);
      ends := [pos] + tail;
      RingsFromCons(data, order, hasZ, hasM, r.0, |acc'|, pos, tail);
    }
  }

  /** A polygon body is the count, then that many rings as consecutive line-string bodies without headers. */
  lemma PolygonLayout(data: seq<byte>, pos: nat, order: ByteOrder, hasZ: bool, hasM: bool, srid: Option<uint32>)
    returns (ends: seq<nat>)
    requires pos <= |data| && ParsePolygonBody(data, pos, order, hasZ, hasM, srid).Success?
    ensures var r := ParsePolygonBody(data, pos, order, hasZ, hasM, srid).value;
      && |r.0.rings| == Uint32At(order, data, pos)
      && |ends| == |r.0.rings| + 1 && ends[0] == pos + 4 && ends[|r.0.rings|] == r.1
      && forall i | 0 <= i < |r.0.rings| ::
           ends[i] <= |data| && ParseLineStringBody(data, ends[i], order, hasZ, hasM, None) == Success((r.0.rings[i], ends[i + 1]))
  {
    var count := ParseInt(data, pos, order).value as nat;
    ends := RingsLayout(data, pos + 4, order, hasZ, hasM, count, []);
  }

  /** From element `from` on, `items` are complete geometries lying between consecutive `ends`. */
  predicate MembersFrom(data: seq<byte>, items: seq<Geometry>, from: nat, ends: seq<nat>)
  {
    && 1 <= |ends| && from + |ends| - 1 == |items|
    && forall i | 0 <= i < |ends| - 1 :: ends[i] <= |data| && ParseGeometry(data, ends[i]) == Success((items[from + i], ends[i + 1]))
  }

  /** One more member in front. */
  lemma MembersFromCons(data: seq<byte>, items: seq<Geometry>, from: nat, p: nat, tail: seq<nat>)
    requires 0 < from && MembersFrom(data, items, from, tail)
    requires p <= |data| && ParseGeometry(data, p) == Success((items[from - 1], tail[0]))
    ensures MembersFrom(data, items, from - 1, [p] + tail)
  {
    var ends := [p] + tail;
    forall i | 0 < i < |ends| - 1
      ensures ends[i] <= |data| && ParseGeometry(data, ends[i]) == Success((items[from - 1 + i], ends[i + 1]))
    {
      assert ends[i] == tail[i - 1] && ends[i + 1] == tail[i] && from - 1 + i == from + (i - 1);
    }
  }

  /**
   * The members of a container lie one after the other: the `i`-th one is a
   * complete geometry with its own header, read by `ParseGeometry` from
   * `ends[i]` to `ends[i + 1]`.  The members already read stay in front.
   */
  lemma {:induction false} MembersLayout(data: seq<byte>, pos: nat, count: nat, k: CollectionKind, acc: seq<Geometry>)
    returns (ends: seq<nat>)
    requires pos <= |data| && ParseMembers(data, pos, count, k, acc).Success?
    ensures var r := ParseMembers(data, pos, count, k, acc).value;
      && r.0[..|acc|] == acc
      && |ends| == count + 1 && ends[0] == pos && ends[count] == r.1
      && MembersFrom(data, r.0, |acc|, ends)
    decreases count
  {
    var r := ParseMembers(data, pos, count, k, acc).value;
    if count == 0 {
      ends := [pos];
    } else {
      var first := ParseGeometry(data, pos).value;
      var acc' := acc + [first.0];
      var tail := MembersLayout(data, first.1, count - 1, k, acc');
      assert r == ParseMembers(data, first.1, count - 1, k, acc').value;
      PrefixStep(r.0, acc, first.0);
      ends := [pos] + tail;
      MembersFromCons(data, r.0, |acc'|, pos, tail);
    }
  }

  /** A container body is the count, then that many complete geometries, each with its own header. */
  lemma CollectionLayout(data: seq<byte>, pos: nat, order: ByteOrder, srid: Option<uint32>, k: CollectionKind)
    returns (ends: seq<nat>)
    requires pos <= |data| && ParseCollectionBody(data, pos, order, srid, k).Success?
    ensures var r := ParseCollectionBody(data, pos, order, srid, k).value;
      && |r.0.Elements()| == Uint32At(order, data, pos)
      && |ends| == |r.0.Elements()| + 1 && ends[0] == pos + 4 && ends[|r.0.Elements()|] == r.1
      && forall i | 0 <= i < |r.0.Elements()| ::
           ends[i] <= |data| && ParseGeometry(data, ends[i]) == Success((r.0.Elements()[i], ends[i + 1]))
  {
    var count := ParseInt(data, pos, order).value as nat;
    ends := MembersLayout(data, pos + 4, count, k, []);
  }
}
