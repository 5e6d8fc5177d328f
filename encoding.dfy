/**
 * What `_EWKBWriter` and the `_write_ewkb_body` methods emit, as functions of
 * the geometry.  The writer is always little-endian.  Errors are reported in
 * the order the source raises them: the header before the body, and the
 * children in list order.
 */
module Encoding {
  import opened Wrappers
  import opened Bytes
  import opened Geometries

  /** The exceptions the writer raises: never one of the reader's. */
  predicate WriterError(e: Error)
  {
    e.InvalidGeometry? || e.UnsupportedClass? || e.EmptyComposite? || e.CountOverflow?
  }

  /** Appending two partial outputs: the first failure wins, as an exception would. */
  function Cat(a: Result<seq<byte>, Error>, b: Result<seq<byte>, Error>): (r: Result<seq<byte>, Error>)
    ensures r.Success? <==> a.Success? && b.Success?
    ensures r.Success? ==> r.value == a.value + b.value
    ensures a.Failure? ==> r == a
    ensures a.Success? && b.Failure? ==> r == b
  {
    if a.Failure? then a else if b.Failure? then b else Success(a.value + b.value)
  }

  /** `write_int(len(...))`: `struct.pack('<I', n)` raises for a count that does not fit. */
  function PackCount(n: nat): (r: Result<seq<byte>, Error>)
    ensures r.Success? <==> n < 0x1_0000_0000
    ensures r.Success? ==> |r.value| == 4 && Uint32At(LittleEndian, r.value, 0) == n
    ensures r.Failure? ==> r.error == CountOverflow
  {
    if n < 0x1_0000_0000 then Success(PackUint32LE(n)) else Failure(CountOverflow)
  }

  /** The bytes of a little-endian header: 0x01, the type word, and the SRID when there is one. */
  function HeaderBytes(word: uint32, srid: Option<uint32>): (r: seq<byte>)
    ensures |r| == (if srid.Some? then 9 else 5) && r[0] == 0x01
    ensures Uint32At(LittleEndian, r, 1) == word
    ensures srid.Some? ==> Uint32At(LittleEndian, r, 5) == srid.value
  {
    var sridBytes := if srid.Some? then PackUint32LE(srid.value) else [];
    Uint32AtSplice(LittleEndian, [0x01], PackUint32LE(word), sridBytes);
    var r := [0x01] + PackUint32LE(word) + sridBytes;
    assert srid.Some? ==> Uint32At(LittleEndian, r, 5) == srid.value by {
      if srid.Some? {
        Uint32AtSplice(LittleEndian, [0x01] + PackUint32LE(word), sridBytes, []);
        assert r + [] == r;
      }
    }
    r
  }

  /** `_EWKBWriter.__init__`: 0x01, the type word, and the SRID when the object has one. */
  function SerializeHeader(g: Geometry): (r: Result<seq<byte>, Error>)
    ensures g.Unsupported? ==> r == Failure(UnsupportedClass(g.className))
    ensures !g.Unsupported? ==> (r.Success? <==> DimensionsDefined(g))
    ensures r.Failure? && !g.Unsupported? ==> r.error == EmptyComposite
  {
    var code :- TypeCode(g);
    DimensionsDefinedIff(g);
    if !DimensionsDefined(g) then Failure(EmptyComposite)
    else Success(HeaderBytes(TypeWord(code, HasZ(g).value, HasM(g).value, HasSrid(g)), g.srid))
  }

  /**
   * What the header says: 0x01, then a type word whose low bits are the
   * class's code and whose flags are `has_z`, `has_m` and `has_srid`, then
   * the SRID when the object has one.
   */
  lemma HeaderFields(g: Geometry)
    requires SerializeHeader(g).Success?
    ensures var r := SerializeHeader(g).value;
      && |r| == (if HasSrid(g) then 9 else 5) && r[0] == 0x01
      && var word := Uint32At(LittleEndian, r, 1);
      && Success(BaseType(word)) == TypeCode(g)
      && Success(ZFlag(word)) == HasZ(g)
      && Success(MFlag(word)) == HasM(g)
      && SridFlag(word) == HasSrid(g)
      && (HasSrid(g) ==> Uint32At(LittleEndian, r, 5) == g.srid.value)
  {
    DimensionsDefinedIff(g);
  }

  /** `Point._write_ewkb_body`: x and y, then z and m when the point has them. */
  function PointBody(p: Geometry): (r: seq<byte>)
    requires p.Point?
    ensures |r| == 16 + (if p.z.Some? then 8 else 0) + (if p.m.Some? then 8 else 0)
    ensures DoubleAt(LittleEndian, r, 0) == p.x && DoubleAt(LittleEndian, r, 8) == p.y
    ensures p.z.Some? ==> DoubleAt(LittleEndian, r, 16) == p.z.value
    ensures p.m.Some? ==> DoubleAt(LittleEndian, r, 16 + (if p.z.Some? then 8 else 0)) == p.m.value
  {
    PackDoubleLE(p.x) + PackDoubleLE(p.y) + (if p.z.Some? then PackDoubleLE(p.z.value) else []) + (if p.m.Some? then PackDoubleLE(p.m.value) else [])
  }

  /** The loop of `LineString._write_ewkb_body`: each point's body, or a failure at the first non-point. */
  function FlatPoints(ps: seq<Geometry>): (r: Result<seq<byte>, Error>)
    ensures r.Failure? ==> r.error == InvalidGeometry
  {
    if ps == [] then Success([])
    else Cat(if ps[0].Point? then Success(PointBody(ps[0])) else Failure(InvalidGeometry), FlatPoints(ps[1..]))
  }

  /** `LineString._write_ewkb_body`: the count, then the points without headers. */
  function LineStringBody(ps: seq<Geometry>): (r: Result<seq<byte>, Error>)
    ensures r.Success? ==> 4 <= |r.value| && Uint32At(LittleEndian, r.value, 0) == |ps|
    ensures r.Failure? ==> r.error == CountOverflow || r.error == InvalidGeometry
  {
    Cat(PackCount(|ps|), FlatPoints(ps))
  }

  /** The loop of `Polygon._write_ewkb_body`: each ring's line-string body, or a failure at the first non-line. */
  function FlatRings(rs: seq<Geometry>): (r: Result<seq<byte>, Error>)
    ensures r.Failure? ==> r.error == CountOverflow || r.error == InvalidGeometry
  {
    if rs == [] then Success([])
    else Cat(if rs[0].LineString? then LineStringBody(rs[0].points) else Failure(InvalidGeometry), FlatRings(rs[1..]))
  }

  /** `Polygon._write_ewkb_body`: the count, then the rings as line-string bodies. */
  function PolygonBody(rs: seq<Geometry>): (r: Result<seq<byte>, Error>)
    ensures r.Success? ==> 4 <= |r.value| && Uint32At(LittleEndian, r.value, 0) == |rs|
    ensures r.Failure? ==> r.error == CountOverflow || r.error == InvalidGeometry
  {
    Cat(PackCount(|rs|), FlatRings(rs))
  }

  /** The loops of the container writers: each admitted member as a complete geometry, header included. */
  function TaggedMembers(gs: seq<Geometry>, k: CollectionKind): (r: Result<seq<byte>, Error>)
    ensures r.Failure? ==> WriterError(r.error)
    decreases gs, 0
  {
    if gs == [] then Success([])
    else Cat(if Admits(k, gs[0]) then Serialize(gs[0]) else Failure(InvalidGeometry), TaggedMembers(gs[1..], k))
  }

  /** `_write_ewkb_body` of the four containers: the count, then the members with their headers. */
  function CollectionBody(gs: seq<Geometry>, k: CollectionKind): (r: Result<seq<byte>, Error>)
    ensures r.Success? ==> 4 <= |r.value| && Uint32At(LittleEndian, r.value, 0) == |gs|
    ensures r.Failure? ==> WriterError(r.error)
    decreases gs, 1
  {
    Cat(PackCount(|gs|), TaggedMembers(gs, k))
  }

  /** `_write_ewkb_body` of each class. */
  function SerializeBody(g: Geometry): (r: Result<seq<byte>, Error>)
    ensures r.Failure? ==> WriterError(r.error)
    decreases g, 0
  {
    match g
    case Point(_, _, _, _, _) => Success(PointBody(g))
    case LineString(ps, _) => LineStringBody(ps)
    case Polygon(rs, _) => PolygonBody(rs)
    case MultiPoint(ps, _) => CollectionBody(ps, MultiPointKind)
    case MultiLineString(ls, _) => CollectionBody(ls, MultiLineStringKind)
    case MultiPolygon(qs, _) => CollectionBody(qs, MultiPolygonKind)
    case GeometryCollection(gs, _) => CollectionBody(gs, AnyKind)
    case Unsupported(name) => Failure(UnsupportedClass(name))
  }

  /** A complete geometry: what `write_ewkb` hex-encodes and what `_write_ewkb` appends for a member. */
  function Serialize(g: Geometry): (r: Result<seq<byte>, Error>)
    ensures r.Success? ==> 5 <= |r.value| && r.value[0] == 0x01
    ensures r.Failure? ==> WriterError(r.error)
    decreases g, 1
  {
    Cat(SerializeHeader(g), SerializeBody(g))
  }

  // ---------------------------------------------------------------------------
  // When the writer succeeds

  /** A line string body can be written: its count fits and every element is a point. */
  predicate LineStringWritable(ps: seq<Geometry>)
  {
    |ps| < 0x1_0000_0000 && forall p | p in ps :: p.Point?
  }

  /** The body of `g` can be written. */
  predicate BodyWritable(g: Geometry)
    decreases g, 0
  {
    match g
    case Point(_, _, _, _, _) => true
    case LineString(ps, _) => LineStringWritable(ps)
    case Polygon(rs, _) =>
      |rs| < 0x1_0000_0000 && forall q | q in rs :: q.LineString? && LineStringWritable(q.points)
    case MultiPoint(ps, _) => |ps| < 0x1_0000_0000 && forall p | p in ps :: p.Point? && Writable(p)
    case MultiLineString(ls, _) => |ls| < 0x1_0000_0000 && forall l | l in ls :: l.LineString? && Writable(l)
    case MultiPolygon(qs, _) => |qs| < 0x1_0000_0000 && forall q | q in qs :: q.Polygon? && Writable(q)
    case GeometryCollection(gs, _) => |gs| < 0x1_0000_0000 && forall c | c in gs :: Writable(c)
    case Unsupported(_) => false
  }

  /** `g` is one of the seven classes, its dimensions are defined, and its body can be written. */
  predicate Writable(g: Geometry)
    decreases g, 1
  {
    !g.Unsupported? && DimensionsDefined(g) && BodyWritable(g)
  }

  lemma {:induction false} FlatPointsSucceedIff(ps: seq<Geometry>)
    ensures FlatPoints(ps).Success? <==> forall p | p in ps :: p.Point?
    ensures FlatPoints(ps).Failure? ==> FlatPoints(ps).error == InvalidGeometry
  {
    if ps != [] {
      FlatPointsSucceedIff(ps[1..]);
      assert forall p | p in ps :: p == ps[0] || p in ps[1..];
    }
  }

  lemma LineStringBodySucceedsIff(ps: seq<Geometry>)
    ensures LineStringBody(ps).Success? <==> LineStringWritable(ps)
  {
    FlatPointsSucceedIff(ps);
  }

  lemma {:induction false} FlatRingsSucceedIff(rs: seq<Geometry>)
    ensures FlatRings(rs).Success? <==> forall q | q in rs :: q.LineString? && LineStringWritable(q.points)
  {
    if rs != [] {
      if rs[0].LineString? {
        LineStringBodySucceedsIff(rs[0].points);
      }
      FlatRingsSucceedIff(rs[1..]);
      assert forall q | q in rs :: q == rs[0] || q in rs[1..];
    }
  }

  /** A polygon with a ring that is not a line string, and no earlier reason to raise, raises "invalid geometry". */
  lemma {:induction false} FlatRingsWrongKind(rs: seq<Geometry>)
    requires forall q | q in rs :: q.LineString? ==> LineStringWritable(q.points)
    requires exists q | q in rs :: !q.LineString?
    ensures FlatRings(rs) == Failure(InvalidGeometry)
  {
    if rs[0].LineString? {
      LineStringBodySucceedsIff(rs[0].points);
      assert exists q | q in rs[1..] :: !q.LineString? by {
        var q :| q in rs && !q.LineString?;
        assert q != rs[0] && q in rs[1..];
      }
      assert forall q | q in rs[1..] :: q in rs;
      FlatRingsWrongKind(rs[1..]);
    }
  }

  lemma {:induction false} TaggedMembersSucceedIff(gs: seq<Geometry>, k: CollectionKind)
    ensures TaggedMembers(gs, k).Success? <==> forall c | c in gs :: Admits(k, c) && Writable(c)
    decreases gs
  {
    if gs != [] {
      SerializeSucceedsIff(gs[0]);
      TaggedMembersSucceedIff(gs[1..], k);
      assert forall c | c in gs :: c == gs[0] || c in gs[1..];
    }
  }

  /**
   * A container with a member its `isinstance` check rejects, all of whose
   * members could otherwise be written, raises "invalid geometry".
   */
  lemma {:induction false} TaggedMembersWrongKind(gs: seq<Geometry>, k: CollectionKind)
    requires forall c | c in gs :: Writable(c)
    requires exists c | c in gs :: !Admits(k, c)
    ensures TaggedMembers(gs, k) == Failure(InvalidGeometry)
  {
    if Admits(k, gs[0]) {
      SerializeSucceedsIff(gs[0]);
      assert exists c | c in gs[1..] :: !Admits(k, c) by {
        var c :| c in gs && !Admits(k, c);
        assert c != gs[0] && c in gs[1..];
      }
      assert forall c | c in gs[1..] :: c in gs;
      TaggedMembersWrongKind(gs[1..], k);
    }
  }

  lemma {:induction false} SerializeBodySucceedsIff(g: Geometry)
    ensures SerializeBody(g).Success? <==> BodyWritable(g)
    decreases g, 0
  {
    match g
    case Point(_, _, _, _, _) =>
    case LineString(ps, _) => LineStringBodySucceedsIff(ps);
    case Polygon(rs, _) => FlatRingsSucceedIff(rs);
    case MultiPoint(ps, _) => TaggedMembersSucceedIff(ps, MultiPointKind);
    case MultiLineString(ls, _) => TaggedMembersSucceedIff(ls, MultiLineStringKind);
    case MultiPolygon(qs, _) => TaggedMembersSucceedIff(qs, MultiPolygonKind);
    case GeometryCollection(gs, _) => TaggedMembersSucceedIff(gs, AnyKind);
    case Unsupported(_) =>
  }

  /** The writer raises for exactly the geometries that `Writable` excludes. */
  lemma {:induction false} SerializeSucceedsIff(g: Geometry)
    ensures Serialize(g).Success? <==> Writable(g)
    decreases g, 1
  {
    SerializeBodySucceedsIff(g);
  }

  // ---------------------------------------------------------------------------
  // Where the children go

  /** A slice that lies in the second part of a concatenation is a slice of that part. */
  lemma SliceOfRight(a: seq<byte>, b: seq<byte>, lo: nat, hi: nat)
    requires |a| <= lo <= hi <= |a| + |b|
    ensures (a + b)[lo..hi] == b[lo - |a|..hi - |a|]
  {
  }

  /** `ends` cuts `n` consecutive pieces out of `total` bytes, from the first byte to the last. */
  predicate Cuts(ends: seq<nat>, n: nat, total: nat)
  {
    && |ends| == n + 1 && ends[0] == 0 && ends[n] == total
    && forall i, j | 0 <= i <= j <= n :: ends[i] <= ends[j]
  }

  /** The cuts of the rest, moved past a first piece of `first` bytes. */
  function CutsAfter(first: nat, tail: seq<nat>): (ends: seq<nat>)
    ensures |ends| == |tail| + 1 && ends[0] == 0
    ensures forall j | 0 <= j < |tail| :: ends[j + 1] == tail[j] + first
  {
    [0] + seq(|tail|, j requires 0 <= j < |tail| => tail[j] + first)
  }

  lemma CutsCons(first: nat, rest: nat, tail: seq<nat>, n: nat)
    requires Cuts(tail, n, rest)
    ensures Cuts(CutsAfter(first, tail), n + 1, first + rest)
  {
    var ends := CutsAfter(first, tail);
    forall i, j | 0 <= i <= j <= n + 1
      ensures ends[i] <= ends[j]
    {
      if 0 < i {
        assert ends[i] == tail[i - 1] + first && ends[j] == tail[j - 1] + first;
      } else if 0 < j {
        assert ends[j] == tail[j - 1] + first;
      }
    }
  }

  /** A piece of the rest, under the cuts moved past a first piece, is the same piece of the whole. */
  lemma PieceAfter(head: seq<byte>, rest: seq<byte>, tail: seq<nat>, n: nat, i: nat, piece: seq<byte>)
    requires Cuts(tail, n, |rest|) && 0 < i <= n
    requires rest[tail[i - 1]..tail[i]] == piece
    ensures var ends := CutsAfter(|head|, tail);
      ends[i] <= ends[i + 1] <= |head + rest| && (head + rest)[ends[i]..ends[i + 1]] == piece
  {
    var ends := CutsAfter(|head|, tail);
    assert ends[i] == tail[i - 1] + |head| && ends[i + 1] == tail[i] + |head|;
    SliceOfRight(head, rest, ends[i], ends[i + 1]);
  }

  /** `v` is the byte strings `bodies` end to end, the `i`-th between `ends[i]` and `ends[i + 1]`. */
  predicate Pieces(v: seq<byte>, bodies: seq<seq<byte>>, ends: seq<nat>)
  {
    && Cuts(ends, |bodies|, |v|)
    && forall i | 0 <= i < |bodies| :: bodies[i] == v[ends[i]..ends[i + 1]]
  }

  /** One more piece in front. */
  lemma PiecesCons(head: seq<byte>, rest: seq<byte>, bodies: seq<seq<byte>>, tail: seq<nat>)
    requires bodies != [] && bodies[0] == head && Pieces(rest, bodies[1..], tail)
    ensures Pieces(head + rest, bodies, CutsAfter(|head|, tail))
  {
    var v, ends := head + rest, CutsAfter(|head|, tail);
    CutsCons(|head|, |rest|, tail, |bodies| - 1);
    forall i | 0 <= i < |bodies|
      ensures bodies[i] == v[ends[i]..ends[i + 1]]
    {
      if i == 0 {
        assert v[0..|head|] == head;
      } else {
        assert bodies[i] == bodies[1..][i - 1];
        PieceAfter(head, rest, tail, |bodies| - 1, i, bodies[i]);
      }
    }
  }

  /** Each piece is as long as its byte string. */
  lemma PieceLengths(v: seq<byte>, bodies: seq<seq<byte>>, ends: seq<nat>)
    requires Pieces(v, bodies, ends)
    ensures forall i | 0 <= i < |bodies| :: ends[i] + |bodies[i]| == ends[i + 1]
  {
    forall i | 0 <= i < |bodies|
      ensures ends[i] + |bodies[i]| == ends[i + 1]
    {
      assert bodies[i] == v[ends[i]..ends[i + 1]];
    }
  }

  /** The bodies of the points `ps`, one per point. */
  function PointBodies(ps: seq<Geometry>): (bodies: seq<seq<byte>>)
    requires forall i | 0 <= i < |ps| :: ps[i].Point?
    ensures |bodies| == |ps| && forall i | 0 <= i < |ps| :: bodies[i] == PointBody(ps[i])
  {
    seq(|ps|, i requires 0 <= i < |ps| => PointBody(ps[i]))
  }

  /** `v` holds the bodies of the points `ps`, without headers, between consecutive `ends`. */
  predicate PointPieces(v: seq<byte>, ps: seq<Geometry>, ends: seq<nat>)
  {
    && (forall i | 0 <= i < |ps| :: ps[i].Point?)
    && Pieces(v, PointBodies(ps), ends)
  }

  /** A point body in front of point pieces gives point pieces with that point first. */
  lemma PointPiecesCons(head: seq<byte>, rest: seq<byte>, ps: seq<Geometry>, tail: seq<nat>)
    requires ps != [] && ps[0].Point? && head == PointBody(ps[0])
    requires PointPieces(rest, ps[1..], tail)
    ensures PointPieces(head + rest, ps, CutsAfter(|head|, tail))
  {
    forall i | 0 < i < |ps|
      ensures ps[i].Point?
    {
      assert ps[i] == ps[1..][i - 1];
    }
    var bodies := PointBodies(ps);
    assert bodies[1..] == PointBodies(ps[1..]);
    PiecesCons(head, rest, bodies, tail);
  }

  /**
   * Points of any dimensions are written without headers, one after another:
   * the `i`-th point body fills bytes `ends[i]` to `ends[i + 1]`, a piece as
   * long as that point's own body.  Mixed dimensions shift every later point.
   */
  lemma {:induction false} FlatPointsPieces(ps: seq<Geometry>) returns (ends: seq<nat>)
    requires forall i | 0 <= i < |ps| :: ps[i].Point?
    ensures FlatPoints(ps).Success? && PointPieces(FlatPoints(ps).value, ps, ends)
    ensures |ends| == |ps| + 1 && forall i | 0 <= i < |ps| :: ends[i] + |PointBody(ps[i])| == ends[i + 1]
  {
    if ps == [] {
      ends := [0];
    } else {
      assert forall i | 0 <= i < |ps[1..]| :: ps[1..][i] == ps[i + 1];
      var tail := FlatPointsPieces(ps[1..]);
      var head, rest := PointBody(ps[0]), FlatPoints(ps[1..]).value;
      assert FlatPoints(ps).value == head + rest;
      ends := CutsAfter(|head|, tail);
      PointPiecesCons(head, rest, ps, tail);
    }
    PieceLengths(FlatPoints(ps).value, PointBodies(ps), ends);
  }

  /** Cuts whose pieces are all `s` long lie `s` apart. */
  lemma {:induction false} StrideAt(ends: seq<nat>, s: nat, n: nat)
    requires ends != [] && ends[0] == 0 && n < |ends|
    requires forall i | 0 <= i < |ends| - 1 :: ends[i] + s == ends[i + 1]
    ensures ends[n] == n * s
  {
    if n > 0 {
      StrideAt(ends, s, n - 1);
      StrideShift(0, s, n - 1);
    }
  }

  /**
   * Points of the same dimensions are written without headers, one after
   * another at a fixed stride: the `i`-th point body fills bytes `i * size`
   * to `(i + 1) * size`.
   */
  lemma FlatPointsLayout(ps: seq<Geometry>, hasZ: bool, hasM: bool) returns (ends: seq<nat>)
    requires forall p | p in ps :: p.Point? && p.z.Some? == hasZ && p.m.Some? == hasM
    ensures FlatPoints(ps).Success? && PointPieces(FlatPoints(ps).value, ps, ends)
    ensures forall i | 0 <= i < |ends| :: ends[i] == i * PointSize(hasZ, hasM)
  {
    ends := FlatPointsPieces(ps);
    forall i | 0 <= i < |ends|
      ensures ends[i] == i * PointSize(hasZ, hasM)
    {
      StrideAt(ends, PointSize(hasZ, hasM), i);
    }
  }

  /** A line-string body of points of the same dimensions is the count, then the points: `4 + n * size` bytes. */
  lemma LineStringBodyLayout(ps: seq<Geometry>, hasZ: bool, hasM: bool)
    requires |ps| < 0x1_0000_0000
    requires forall p | p in ps :: p.Point? && p.z.Some? == hasZ && p.m.Some? == hasM
    ensures LineStringBody(ps).Success? && FlatPoints(ps).Success?
    ensures var v := LineStringBody(ps).value;
      && |v| == 4 + |ps| * PointSize(hasZ, hasM)
      && v[..4] == PackUint32LE(|ps|) && v[4..] == FlatPoints(ps).value
  {
    var ends := FlatPointsLayout(ps, hasZ, hasM);
  }

  /** The line-string bodies of the rings `rs`, one per ring. */
  function RingBodies(rs: seq<Geometry>): (bodies: seq<seq<byte>>)
    requires forall i | 0 <= i < |rs| :: rs[i].LineString? && LineStringBody(rs[i].points).Success?
    ensures |bodies| == |rs| && forall i | 0 <= i < |rs| :: LineStringBody(rs[i].points) == Success(bodies[i])
  {
    seq(|rs|, i requires 0 <= i < |rs| => LineStringBody(rs[i].points).value)
  }

  /** `v` holds the rings `rs`, each as a line-string body, between consecutive `ends`. */
  predicate RingPieces(v: seq<byte>, rs: seq<Geometry>, ends: seq<nat>)
  {
    && (forall i | 0 <= i < |rs| :: rs[i].LineString? && LineStringBody(rs[i].points).Success?)
    && Pieces(v, RingBodies(rs), ends)
  }

  /** A ring's line-string body in front of ring pieces gives ring pieces with that ring first. */
  lemma RingPiecesCons(head: seq<byte>, rest: seq<byte>, rs: seq<Geometry>, tail: seq<nat>)
    requires rs != [] && rs[0].LineString? && LineStringBody(rs[0].points) == Success(head)
    requires RingPieces(rest, rs[1..], tail)
    ensures RingPieces(head + rest, rs, CutsAfter(|head|, tail))
  {
    forall i | 0 < i < |rs|
      ensures rs[i].LineString? && LineStringBody(rs[i].points).Success?
    {
      assert rs[i] == rs[1..][i - 1];
    }
    var bodies := RingBodies(rs);
    assert bodies[1..] == RingBodies(rs[1..]);
    PiecesCons(head, rest, bodies, tail);
  }

  /**
   * The rings of a polygon are written one after another, each as a
   * line-string body without header, filling bytes `ends[i]` to `ends[i + 1]`.
   */
  lemma {:induction false} FlatRingsLayout(rs: seq<Geometry>) returns (ends: seq<nat>)
    requires FlatRings(rs).Success?
    ensures RingPieces(FlatRings(rs).value, rs, ends)
  {
    if rs == [] {
      ends := [0];
    } else {
      var head, rest := LineStringBody(rs[0].points).value, FlatRings(rs[1..]).value;
      assert FlatRings(rs).value == head + rest;
      var tail := FlatRingsLayout(rs[1..]);
      ends := CutsAfter(|head|, tail);
      RingPiecesCons(head, rest, rs, tail);
    }
  }

  /** The members `gs`, each written whole. */
  function MemberBodies(gs: seq<Geometry>): (bodies: seq<seq<byte>>)
    requires forall i | 0 <= i < |gs| :: Serialize(gs[i]).Success?
    ensures |bodies| == |gs| && forall i | 0 <= i < |gs| :: Serialize(gs[i]) == Success(bodies[i])
  {
    seq(|gs|, i requires 0 <= i < |gs| => Serialize(gs[i]).value)
  }

  /** `v` holds the members `gs`, each admitted by `k` and written whole, between consecutive `ends`. */
  predicate MemberPieces(v: seq<byte>, gs: seq<Geometry>, k: CollectionKind, ends: seq<nat>)
  {
    && (forall i | 0 <= i < |gs| :: Admits(k, gs[i]) && Serialize(gs[i]).Success?)
    && Pieces(v, MemberBodies(gs), ends)
  }

  /** A member written whole in front of member pieces gives member pieces with that member first. */
  lemma MemberPiecesCons(head: seq<byte>, rest: seq<byte>, gs: seq<Geometry>, k: CollectionKind, tail: seq<nat>)
    requires gs != [] && Admits(k, gs[0]) && Serialize(gs[0]) == Success(head)
    requires MemberPieces(rest, gs[1..], k, tail)
    ensures MemberPieces(head + rest, gs, k, CutsAfter(|head|, tail))
  {
    forall i | 0 < i < |gs|
      ensures Admits(k, gs[i]) && Serialize(gs[i]).Success?
    {
      assert gs[i] == gs[1..][i - 1];
    }
    var bodies := MemberBodies(gs);
    assert bodies[1..] == MemberBodies(gs[1..]);
    PiecesCons(head, rest, bodies, tail);
  }

  /**
   * The members of a container are written one after another, each admitted
   * by the container and written whole, header included, as `Serialize`
   * gives it, filling bytes `ends[i]` to `ends[i + 1]`.
   */
  lemma {:induction false} TaggedMembersLayout(gs: seq<Geometry>, k: CollectionKind) returns (ends: seq<nat>)
    requires TaggedMembers(gs, k).Success?
    ensures MemberPieces(TaggedMembers(gs, k).value, gs, k, ends)
  {
    if gs == [] {
      ends := [0];
    } else {
      var head, rest := Serialize(gs[0]).value, TaggedMembers(gs[1..], k).value;
      assert TaggedMembers(gs, k).value == head + rest;
      var tail := TaggedMembersLayout(gs[1..], k);
      ends := CutsAfter(|head|, tail);
      MemberPiecesCons(head, rest, gs, k, tail);
    }
  }
}
