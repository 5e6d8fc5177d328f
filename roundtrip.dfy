/**
 * Reading back what the writer emits.  The writer does not check that the
 * flat children of a composite share the dimensions the header declares, it
 * never writes a flat child's SRID, and the composite constructors drop a
 * zero SRID, so `Canonical` states what a geometry needs beyond `Writable`
 * for the decoder to rebuild it exactly.
 */
module RoundTrip {
  import opened Wrappers
  import opened Bytes
  import opened Geometries
  import opened Decoding
  import opened Encoding

  /** The dimensions a header written for `g` declares, when they are defined. */
  predicate DeclaresZ(g: Geometry) { HasZ(g) == Success(true) }
  predicate DeclaresM(g: Geometry) { HasM(g) == Success(true) }

  /**
   * The flat children of every line string and polygon in `g` match the
   * dimensions of the first point (which the header declares) and carry no
   * SRID, and no composite carries the SRID 0.
   */
  predicate Canonical(g: Geometry)
    decreases g
  {
    match g
    case Point(_, _, _, _, _) => true
    case LineString(ps, srid) =>
      srid != Some(0) && forall p | p in ps :: FlatPoint(p, DeclaresZ(g), DeclaresM(g))
    case Polygon(rs, srid) =>
      srid != Some(0) && forall q | q in rs :: FlatRing(q, DeclaresZ(g), DeclaresM(g))
    case MultiPoint(ps, srid) => srid != Some(0) && forall c | c in ps :: Canonical(c)
    case MultiLineString(ls, srid) => srid != Some(0) && forall c | c in ls :: Canonical(c)
    case MultiPolygon(qs, srid) => srid != Some(0) && forall c | c in qs :: Canonical(c)
    case GeometryCollection(gs, srid) => srid != Some(0) && forall c | c in gs :: Canonical(c)
    case Unsupported(_) => false
  }

  /** `b` occurs in `data` at `pos`. */
  predicate At(data: seq<byte>, pos: nat, b: seq<byte>)
  {
    pos + |b| <= |data| && forall i | 0 <= i < |b| :: data[pos + i] == b[i]
  }

  lemma {:induction false} AtConcat(data: seq<byte>, pos: nat, a: seq<byte>, b: seq<byte>)
    requires At(data, pos, a + b)
    ensures At(data, pos, a) && At(data, pos + |a|, b)
  {
    forall i | 0 <= i < |a| ensures data[pos + i] == a[i] {
      assert (a + b)[i] == a[i];
    }
    forall i | 0 <= i < |b| ensures data[pos + |a| + i] == b[i] {
      assert (a + b)[|a| + i] == b[i];
    }
  }

  lemma {:induction false} ParseIntAt(data: seq<byte>, pos: nat, n: uint32)
    requires At(data, pos, PackUint32LE(n))
    ensures ParseInt(data, pos, LittleEndian) == Success(n)
  {
    var b := PackUint32LE(n);
    assert data[pos] == b[0] && data[pos + 1] == b[1] && data[pos + 2] == b[2] && data[pos + 3] == b[3];
  }

  lemma {:induction false} ParseDoubleAt(data: seq<byte>, pos: nat, d: Float64)
    requires At(data, pos, PackDoubleLE(d))
    ensures ParseDouble(data, pos, LittleEndian) == Success(d)
  {
    var b := PackDoubleLE(d);
    assert data[pos] == b[0] && data[pos + 1] == b[1] && data[pos + 2] == b[2] && data[pos + 3] == b[3];
    assert data[pos + 4] == b[4] && data[pos + 5] == b[5] && data[pos + 6] == b[6] && data[pos + 7] == b[7];
  }

  /*
   * Each predicate below says that `data[pos..end]` holds what the writer
   * emits for one part of a geometry.  The lemmas that split one of them
   * return the position where the next part starts.
   */

  /** The coordinates of a point, written one after another, read back as that point. */
  lemma ParseCoordinatesAt(p: Geometry, data: seq<byte>, pos: nat, zPart: seq<byte>, mPart: seq<byte>)
    requires p.Point?
    requires zPart == if p.z.Some? then PackDoubleLE(p.z.value) else []
    requires mPart == if p.m.Some? then PackDoubleLE(p.m.value) else []
    requires At(data, pos, PackDoubleLE(p.x) + PackDoubleLE(p.y) + zPart + mPart)
    ensures ParsePointBody(data, pos, LittleEndian, p.z.Some?, p.m.Some?, p.srid)
      == Success((p, pos + 16 + |zPart| + |mPart|))
  {
    AtConcat(data, pos, PackDoubleLE(p.x) + PackDoubleLE(p.y) + zPart, mPart);
    AtConcat(data, pos, PackDoubleLE(p.x) + PackDoubleLE(p.y), zPart);
    AtConcat(data, pos, PackDoubleLE(p.x), PackDoubleLE(p.y));
    ParseDoubleAt(data, pos, p.x);
    ParseDoubleAt(data, pos + 8, p.y);
    if p.z.Some? {
      ParseDoubleAt(data, pos + 16, p.z.value);
    }
    if p.m.Some? {
      ParseDoubleAt(data, pos + 16 + |zPart|, p.m.value);
    }
  }

  /** A point body reads back, given the header's dimensions and SRID. */
  lemma ParsePointAt(p: Geometry, data: seq<byte>, pos: nat)
    requires p.Point? && At(data, pos, PointBody(p))
    ensures ParsePointBody(data, pos, LittleEndian, p.z.Some?, p.m.Some?, p.srid)
      == Success((p, pos + |PointBody(p)|))
  {
    var zPart: seq<byte> := if p.z.Some? then PackDoubleLE(p.z.value) else [];
    var mPart: seq<byte> := if p.m.Some? then PackDoubleLE(p.m.value) else [];
    assert PointBody(p) == PackDoubleLE(p.x) + PackDoubleLE(p.y) + zPart + mPart;
    ParseCoordinatesAt(p, data, pos, zPart, mPart);
  }

  /** Flat points of the declared dimensions, written back to back. */
  predicate PointsAt(ps: seq<Geometry>, hasZ: bool, hasM: bool, data: seq<byte>, pos: nat, end: nat)
  {
    && (forall p | p in ps :: FlatPoint(p, hasZ, hasM))
    && FlatPoints(ps).Success? && At(data, pos, FlatPoints(ps).value) && end == pos + |FlatPoints(ps).value|
  }

  lemma {:induction false} PointsSplit(ps: seq<Geometry>, hasZ: bool, hasM: bool, data: seq<byte>, pos: nat, end: nat)
    returns (mid: nat)
    requires ps != [] && PointsAt(ps, hasZ, hasM, data, pos, end)
    ensures FlatPoint(ps[0], hasZ, hasM) && At(data, pos, PointBody(ps[0])) && mid == pos + |PointBody(ps[0])|
    ensures PointsAt(ps[1..], hasZ, hasM, data, mid, end)
  {
    assert ps[0] in ps;
    var head := PointBody(ps[0]);
    var tail := FlatPoints(ps[1..]).value;
    assert FlatPoints(ps).value == head + tail;
    AtConcat(data, pos, head, tail);
    forall p | p in ps[1..] ensures FlatPoint(p, hasZ, hasM) {
      assert p in ps;
    }
    mid := pos + |head|;
  }

  /** Moving the head of a list onto the end of what precedes it leaves the concatenation unchanged. */
  lemma AppendHead<T>(acc: seq<T>, xs: seq<T>)
    requires xs != []
    ensures (acc + [xs[0]]) + xs[1..] == acc + xs
  {
    assert xs == [xs[0]] + xs[1..];
  }

  /** Flat points of the declared dimensions read back one after another, appended to those read before. */
  lemma {:induction false} ParsePointsAt(ps: seq<Geometry>, hasZ: bool, hasM: bool, data: seq<byte>, pos: nat, end: nat, acc: seq<Geometry>)
    requires PointsAt(ps, hasZ, hasM, data, pos, end)
    ensures ParsePoints(data, pos, LittleEndian, hasZ, hasM, |ps|, acc) == Success((acc + ps, end))
  {
    if ps == [] {
      assert acc + ps == acc;
    } else {
      var mid := PointsSplit(ps, hasZ, hasM, data, pos, end);
      ParsePointAt(ps[0], data, pos);
      ParsePointsAt(ps[1..], hasZ, hasM, data, mid, end, acc + [ps[0]]);
      AppendHead(acc, ps);
    }
  }

  /** A line-string body whose points match the declared dimensions. */
  predicate LineStringAt(ps: seq<Geometry>, hasZ: bool, hasM: bool, data: seq<byte>, pos: nat, end: nat)
  {
    && (forall p | p in ps :: FlatPoint(p, hasZ, hasM))
    && LineStringBody(ps).Success? && At(data, pos, LineStringBody(ps).value) && end == pos + |LineStringBody(ps).value|
  }

  lemma {:induction false} LineStringSplit(ps: seq<Geometry>, hasZ: bool, hasM: bool, data: seq<byte>, pos: nat, end: nat)
    requires LineStringAt(ps, hasZ, hasM, data, pos, end)
    ensures |ps| < 0x1_0000_0000 && At(data, pos, PackUint32LE(|ps|)) && PointsAt(ps, hasZ, hasM, data, pos + 4, end)
  {
    AtConcat(data, pos, PackUint32LE(|ps|), FlatPoints(ps).value);
  }

  /** A line-string body reads back; the constructor keeps a non-zero SRID. */
  lemma {:induction false} ParseLineStringAt(ps: seq<Geometry>, srid: Option<uint32>, hasZ: bool, hasM: bool, data: seq<byte>, pos: nat, end: nat)
    requires LineStringAt(ps, hasZ, hasM, data, pos, end)
    ensures ParseLineStringBody(data, pos, LittleEndian, hasZ, hasM, srid) == Success((LineString(ps, KeepSrid(srid)), end))
  {
    LineStringSplit(ps, hasZ, hasM, data, pos, end);
    ParseIntAt(data, pos, |ps|);
    ParsePointsAt(ps, hasZ, hasM, data, pos + 4, end, []);
    assert [] + ps == ps;
  }

  /** The rings of a polygon: line-string bodies without header or SRID, back to back. */
  predicate RingsAt(rs: seq<Geometry>, hasZ: bool, hasM: bool, data: seq<byte>, pos: nat, end: nat)
  {
    && (forall q | q in rs :: FlatRing(q, hasZ, hasM))
    && FlatRings(rs).Success? && At(data, pos, FlatRings(rs).value) && end == pos + |FlatRings(rs).value|
  }

  lemma {:induction false} RingsSplit(rs: seq<Geometry>, hasZ: bool, hasM: bool, data: seq<byte>, pos: nat, end: nat)
    returns (mid: nat)
    requires rs != [] && RingsAt(rs, hasZ, hasM, data, pos, end)
    ensures FlatRing(rs[0], hasZ, hasM) && LineStringAt(rs[0].points, hasZ, hasM, data, pos, mid)
    ensures RingsAt(rs[1..], hasZ, hasM, data, mid, end)
  {
    assert rs[0] in rs;
    var head := LineStringBody(rs[0].points).value;
    var tail := FlatRings(rs[1..]).value;
    assert FlatRings(rs).value == head + tail;
    AtConcat(data, pos, head, tail);
    forall q | q in rs[1..] ensures FlatRing(q, hasZ, hasM) {
      assert q in rs;
    }
    mid := pos + |head|;
  }

  /** Rings of the declared dimensions read back one after another, appended to those read before. */
  lemma {:induction false} ParseRingsAt(rs: seq<Geometry>, hasZ: bool, hasM: bool, data: seq<byte>, pos: nat, end: nat, acc: seq<Geometry>)
    requires RingsAt(rs, hasZ, hasM, data, pos, end)
    ensures ParseRings(data, pos, LittleEndian, hasZ, hasM, |rs|, acc) == Success((acc + rs, end))
  {
    if rs == [] {
      assert acc + rs == acc;
    } else {
      var mid := RingsSplit(rs, hasZ, hasM, data, pos, end);
      ParseLineStringAt(rs[0].points, None, hasZ, hasM, data, pos, mid);
      RingsCons(data, pos, LittleEndian, hasZ, hasM, |rs|, acc);
      ParseRingsAt(rs[1..], hasZ, hasM, data, mid, end, acc + [rs[0]]);
      AppendHead(acc, rs);
    }
  }

  /** A canonical geometry, complete with its header. */
  predicate SerializedAt(g: Geometry, data: seq<byte>, pos: nat, end: nat)
  {
    Canonical(g) && Serialize(g).Success? && At(data, pos, Serialize(g).value) && end == pos + |Serialize(g).value|
  }

  /** The members of a container of kind `k`, each complete with its header. */
  predicate MembersAt(gs: seq<Geometry>, k: CollectionKind, data: seq<byte>, pos: nat, end: nat)
  {
    && (forall c | c in gs :: Canonical(c))
    && TaggedMembers(gs, k).Success? && At(data, pos, TaggedMembers(gs, k).value)
    && end == pos + |TaggedMembers(gs, k).value|
  }

  lemma {:induction false} MembersSplit(gs: seq<Geometry>, k: CollectionKind, data: seq<byte>, pos: nat, end: nat)
    returns (mid: nat)
    requires gs != [] && MembersAt(gs, k, data, pos, end)
    ensures Admits(k, gs[0]) && SerializedAt(gs[0], data, pos, mid) && MembersAt(gs[1..], k, data, mid, end)
  {
    assert gs[0] in gs;
    var head := Serialize(gs[0]).value;
    var tail := TaggedMembers(gs[1..], k).value;
    assert TaggedMembers(gs, k).value == head + tail;
    AtConcat(data, pos, head, tail);
    forall c | c in gs[1..] ensures Canonical(c) {
      assert c in gs;
    }
    mid := pos + |head|;
  }

  /** Complete members, each with its own header, read back one after another and appended to those read before. */
  lemma {:induction false} ParseMembersAt(gs: seq<Geometry>, k: CollectionKind, data: seq<byte>, pos: nat, end: nat, acc: seq<Geometry>)
    requires MembersAt(gs, k, data, pos, end)
    ensures ParseMembers(data, pos, |gs|, k, acc) == Success((acc + gs, end))
    decreases gs, 0
  {
    if gs == [] {
      assert acc + gs == acc;
    } else {
      var mid := MembersSplit(gs, k, data, pos, end);
      ParseSerialized(gs[0], data, pos, mid);
      ParseMembersAt(gs[1..], k, data, mid, end, acc + [gs[0]]);
      AppendHead(acc, gs);
    }
  }

  /** The header fields the writer emits for `g`, as the reader sees them. */
  predicate HeaderOf(g: Geometry, h: Header)
  {
    && !g.Unsupported? && h.order == LittleEndian && h.srid == g.srid && Success(BaseType(h.word)) == TypeCode(g)
    && ZFlag(h.word) == DeclaresZ(g) && MFlag(h.word) == DeclaresM(g)
  }

  /** The header the writer emits is `HeaderBytes` of a word carrying `g`'s code and flags. */
  lemma {:induction false} SerializeHeaderWord(g: Geometry) returns (word: uint32)
    requires SerializeHeader(g).Success?
    ensures SerializeHeader(g).value == HeaderBytes(word, g.srid) && !g.Unsupported?
    ensures Success(BaseType(word)) == TypeCode(g) && SridFlag(word) == g.srid.Some?
    ensures ZFlag(word) == DeclaresZ(g) && MFlag(word) == DeclaresM(g)
  {
    DimensionsDefinedIff(g);
    word := TypeWord(TypeCode(g).value, HasZ(g).value, HasM(g).value, HasSrid(g));
  }

  lemma {:induction false} ParseHeaderBytes(data: seq<byte>, pos: nat, word: uint32, srid: Option<uint32>)
    requires SridFlag(word) == srid.Some? && At(data, pos, HeaderBytes(word, srid))
    ensures ParseHeader(data, pos) == Success(Header(LittleEndian, word, srid, pos + |HeaderBytes(word, srid)|))
  {
    var sridPart: seq<byte> := if srid.Some? then PackUint32LE(srid.value) else [];
    AtConcat(data, pos, [0x01] + PackUint32LE(word), sridPart);
    AtConcat(data, pos, [0x01], PackUint32LE(word));
    assert data[pos + 0] == [0x01 as byte][0];
    ParseIntAt(data, pos + 1, word);
    if srid.Some? {
      ParseIntAt(data, pos + 5, srid.value);
    }
  }

  /** The header the writer emits reads back as little-endian, with `g`'s code, flags and SRID. */
  lemma {:induction false} ParseHeaderAt(g: Geometry, data: seq<byte>, pos: nat) returns (h: Header)
    requires SerializeHeader(g).Success? && At(data, pos, SerializeHeader(g).value)
    ensures ParseHeader(data, pos) == Success(h) && HeaderOf(g, h) && h.end == pos + |SerializeHeader(g).value|
  {
    var word := SerializeHeaderWord(g);
    ParseHeaderBytes(data, pos, word, g.srid);
    h := Header(LittleEndian, word, g.srid, pos + |HeaderBytes(word, g.srid)|);
  }

  /** The body the writer emits for `g`, under a header the reader took from the writer. */
  predicate BodyAt(g: Geometry, data: seq<byte>, h: Header, end: nat)
  {
    && Canonical(g) && HeaderOf(g, h) && h.end <= |data|
    && SerializeBody(g).Success? && At(data, h.end, SerializeBody(g).value) && end == h.end + |SerializeBody(g).value|
  }

  lemma {:induction false} SerializedSplit(g: Geometry, data: seq<byte>, pos: nat, end: nat) returns (h: Header)
    requires SerializedAt(g, data, pos, end)
    ensures ParseHeader(data, pos) == Success(h) && BodyAt(g, data, h, end)
  {
    AtConcat(data, pos, SerializeHeader(g).value, SerializeBody(g).value);
    h := ParseHeaderAt(g, data, pos);
  }

  lemma {:induction false} ParsePointBodyAt(g: Geometry, data: seq<byte>, h: Header, end: nat)
    requires g.Point? && BodyAt(g, data, h, end)
    ensures ParseBody(data, h) == Success((g, end))
  {
    ParsePointAt(g, data, h.end);
  }

  lemma {:induction false} ParseLineStringBodyAt(g: Geometry, data: seq<byte>, h: Header, end: nat)
    requires g.LineString? && BodyAt(g, data, h, end)
    ensures ParseBody(data, h) == Success((g, end))
  {
    ParseLineStringAt(g.points, h.srid, DeclaresZ(g), DeclaresM(g), data, h.end, end);
  }

  /** A polygon body whose rings match the declared dimensions. */
  predicate PolygonAt(rs: seq<Geometry>, hasZ: bool, hasM: bool, data: seq<byte>, pos: nat, end: nat)
  {
    && (forall q | q in rs :: FlatRing(q, hasZ, hasM))
    && PolygonBody(rs).Success? && At(data, pos, PolygonBody(rs).value) && end == pos + |PolygonBody(rs).value|
  }

  lemma {:induction false} PolygonSplit(rs: seq<Geometry>, hasZ: bool, hasM: bool, data: seq<byte>, pos: nat, end: nat)
    requires PolygonAt(rs, hasZ, hasM, data, pos, end)
    ensures |rs| < 0x1_0000_0000 && At(data, pos, PackUint32LE(|rs|)) && RingsAt(rs, hasZ, hasM, data, pos + 4, end)
  {
    AtConcat(data, pos, PackUint32LE(|rs|), FlatRings(rs).value);
  }

  /** A polygon body reads back; the constructor keeps a non-zero SRID. */
  lemma {:induction false} ParsePolygonAt(rs: seq<Geometry>, srid: Option<uint32>, hasZ: bool, hasM: bool, data: seq<byte>, pos: nat, end: nat)
    requires PolygonAt(rs, hasZ, hasM, data, pos, end)
    ensures ParsePolygonBody(data, pos, LittleEndian, hasZ, hasM, srid) == Success((Polygon(rs, KeepSrid(srid)), end))
  {
    PolygonSplit(rs, hasZ, hasM, data, pos, end);
    ParseIntAt(data, pos, |rs|);
    ParseRingsAt(rs, hasZ, hasM, data, pos + 4, end, []);
    assert [] + rs == rs;
  }

  lemma {:induction false} ParsePolygonBodyAt(g: Geometry, data: seq<byte>, h: Header, end: nat)
    requires g.Polygon? && BodyAt(g, data, h, end)
    ensures ParseBody(data, h) == Success((g, end))
  {
    ParsePolygonAt(g.rings, h.srid, DeclaresZ(g), DeclaresM(g), data, h.end, end);
    PolygonDispatch(data, h);
  }

  /** The kind of container the writer emits for a composite with complete members. */
  function KindOf(g: Geometry): (k: CollectionKind)
    requires g.IsComposite() && !g.LineString? && !g.Polygon?
    ensures TypeCode(g) == Success(KindCode(k))
  {
    match g
    case MultiPoint(_, _) => MultiPointKind
    case MultiLineString(_, _) => MultiLineStringKind
    case MultiPolygon(_, _) => MultiPolygonKind
    case GeometryCollection(_, _) => AnyKind
  }

  lemma {:induction false} CollectionSplit(g: Geometry, data: seq<byte>, h: Header, end: nat)
    requires g.IsComposite() && !g.LineString? && !g.Polygon? && BodyAt(g, data, h, end)
    ensures |g.Elements()| < 0x1_0000_0000 && At(data, h.end, PackUint32LE(|g.Elements()|))
    ensures MembersAt(g.Elements(), KindOf(g), data, h.end + 4, end)
    ensures g == Assemble(KindOf(g), g.Elements(), h.srid)
  {
    assert SerializeBody(g) == CollectionBody(g.Elements(), KindOf(g));
    AtConcat(data, h.end, PackUint32LE(|g.Elements()|), TaggedMembers(g.Elements(), KindOf(g)).value);
  }

  lemma {:induction false} ParseCollectionAt(gs: seq<Geometry>, k: CollectionKind, srid: Option<uint32>, data: seq<byte>, pos: nat, end: nat)
    requires |gs| < 0x1_0000_0000 && At(data, pos, PackUint32LE(|gs|))
    requires ParseMembers(data, pos + 4, |gs|, k, []) == Success((gs, end))
    ensures ParseCollectionBody(data, pos, LittleEndian, srid, k) == Success((Assemble(k, gs, srid), end))
  {
    ParseIntAt(data, pos, |gs|);
  }

  lemma {:induction false} ParseCollectionBodyAt(g: Geometry, data: seq<byte>, h: Header, end: nat)
    requires g.IsComposite() && !g.LineString? && !g.Polygon? && BodyAt(g, data, h, end)
    ensures ParseBody(data, h) == Success((g, end))
    decreases g, 0
  {
    CollectionSplit(g, data, h, end);
    ParseMembersAt(g.Elements(), KindOf(g), data, h.end + 4, end, []);
    assert [] + g.Elements() == g.Elements();
    ParseCollectionAt(g.Elements(), KindOf(g), h.srid, data, h.end, end);
    CollectionDispatch(data, h, KindOf(g));
  }

  /** The body the writer emits for `g` reads back as `g`, under the header it emits. */
  lemma {:induction false} ParseBodyAt(g: Geometry, data: seq<byte>, h: Header, end: nat)
    requires BodyAt(g, data, h, end)
    ensures ParseBody(data, h) == Success((g, end))
    decreases g, 1
  {
    if g.Point? {
      ParsePointBodyAt(g, data, h, end);
    } else if g.LineString? {
      ParseLineStringBodyAt(g, data, h, end);
    } else if g.Polygon? {
      ParsePolygonBodyAt(g, data, h, end);
    } else {
      ParseCollectionBodyAt(g, data, h, end);
    }
  }

  /** A canonical geometry reads back from the bytes the writer emits for it. */
  lemma {:induction false} ParseSerialized(g: Geometry, data: seq<byte>, pos: nat, end: nat)
    requires SerializedAt(g, data, pos, end)
    ensures ParseGeometry(data, pos) == Success((g, end))
    decreases g, 2
  {
    var h := SerializedSplit(g, data, pos, end);
    ParseBodyAt(g, data, h, end);
  }

  /**
   * Decoding the bytes the writer emits for a canonical geometry gives back
   * the same geometry and stops right after them, whatever precedes or
   * follows them in the stream.
   */
  lemma {:induction false} ReadBack(g: Geometry, data: seq<byte>, pos: nat, end: nat)
    requires Canonical(g) && Serialize(g).Success? && At(data, pos, Serialize(g).value)
    requires end == pos + |Serialize(g).value|
    ensures ParseGeometry(data, pos) == Success((g, end))
  {
    ParseSerialized(g, data, pos, end);
  }
}
