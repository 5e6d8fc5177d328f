/**
 * The geometry classes of ppygis3 as one closed sum type, with the derived
 * properties `has_z`, `has_m` and `has_srid` and the writer's class-to-code
 * table.  Children of composites are arbitrary geometries, exactly as the
 * Python lists may hold any object: the kind checks of the codec decide what
 * is accepted.
 */
module Geometries {
  import opened Wrappers
  import opened Bytes

  /** The conditions under which a read or a write raises. */
  datatype Error =
    | InvalidEncoding             // byte-order byte is neither 0x00 nor 0x01 (or missing)
    | Truncated                   // `struct.unpack` got fewer bytes than the field needs
    | UnsupportedType(code: uint32) // masked base type outside 1..7
    | InvalidGeometry             // a child of the wrong kind in a flat or typed container
    | UnsupportedClass(name: string) // the writer met a class outside the seven
    | EmptyComposite              // `points[0]` of an empty composite: Python's IndexError
    | CountOverflow               // `struct.pack('<I', len(...))` of a list of 2^32 or more
    | InvalidHex                  // `binascii.a2b_hex` rejected the text

  /**
   * A geometry value.  `z`, `m` and `srid` are `Some` exactly when the Python
   * object has that attribute.  `Unsupported` stands for an instance of
   * `Geometry` that is none of the seven recognised classes.
   */
  datatype Geometry =
    | Point(x: Float64, y: Float64, z: Option<Float64>, m: Option<Float64>, srid: Option<uint32>)
    | LineString(points: seq<Geometry>, srid: Option<uint32>)
    | Polygon(rings: seq<Geometry>, srid: Option<uint32>)
    | MultiPoint(points: seq<Geometry>, srid: Option<uint32>)
    | MultiLineString(lines: seq<Geometry>, srid: Option<uint32>)
    | MultiPolygon(polygons: seq<Geometry>, srid: Option<uint32>)
    | GeometryCollection(geometries: seq<Geometry>, srid: Option<uint32>)
    | Unsupported(className: string)
  {
    predicate IsComposite() { !Point? && !Unsupported? }

    /** The list a composite holds, whatever the source calls it. */
    function Elements(): (es: seq<Geometry>)
      requires IsComposite()
      ensures forall e :: e in es ==> e < this
    {
      match this
      case LineString(ps, _) => ps
      case Polygon(rs, _) => rs
      case MultiPoint(ps, _) => ps
      case MultiLineString(ls, _) => ls
      case MultiPolygon(qs, _) => qs
      case GeometryCollection(gs, _) => gs
    }
  }

  /**
   * The SRID a composite constructor keeps: `if srid: self.srid = srid`
   * drops both `None` and 0, where `Point` keeps every SRID but `None`.
   */
  function KeepSrid(srid: Option<uint32>): (r: Option<uint32>)
    ensures r.Some? <==> srid.Some? && srid.value != 0
    ensures r.Some? ==> r == srid
  {
    if srid.Some? && srid.value != 0 then srid else None
  }

  /** The `has_z` property; a composite asks its first element, so an empty one raises. */
  function HasZ(g: Geometry): (r: Result<bool, Error>)
    ensures r.Failure? ==> r.error == EmptyComposite
  {
    match g
    case Point(_, _, z, _, _) => Success(z.Some?)
    case Unsupported(_) => Success(false)
    case _ => if g.Elements() == [] then Failure(EmptyComposite) else HasZ(g.Elements()[0])
  }

  /** The `has_m` property, derived like `has_z`. */
  function HasM(g: Geometry): (r: Result<bool, Error>)
    ensures r.Failure? ==> r.error == EmptyComposite
  {
    match g
    case Point(_, _, _, m, _) => Success(m.Some?)
    case Unsupported(_) => Success(false)
    case _ => if g.Elements() == [] then Failure(EmptyComposite) else HasM(g.Elements()[0])
  }

  /**
   * The path of first elements that `has_z` and `has_m` follow ends in a
   * point or an unsupported object, and neither raises, exactly when every
   * composite on it is non-empty.
   */
  predicate DimensionsDefined(g: Geometry)
  {
    g.IsComposite() ==> g.Elements() != [] && DimensionsDefined(g.Elements()[0])
  }

  lemma {:induction false} DimensionsDefinedIff(g: Geometry)
    ensures HasZ(g).Success? <==> DimensionsDefined(g)
    ensures HasM(g).Success? <==> DimensionsDefined(g)
  {
    if g.IsComposite() && g.Elements() != [] {
      DimensionsDefinedIff(g.Elements()[0]);
    }
  }

  /** The `has_srid` property: whether the object carries an `srid` attribute. */
  function HasSrid(g: Geometry): (r: bool)
    ensures r ==> !g.Unsupported?
    ensures !g.Unsupported? ==> (r <==> g.srid.Some?)
  {
    !g.Unsupported? && g.srid.Some?
  }

  /** The wire code of each class, as the writer's `isinstance` chain selects it. */
  function TypeCode(g: Geometry): (r: Result<uint32, Error>)
    ensures r.Success? <==> !g.Unsupported?
    ensures r.Success? ==> 1 <= r.value <= 7
    ensures g.Unsupported? ==> r == Failure(UnsupportedClass(g.className))
  {
    match g
    case Point(_, _, _, _, _) => Success(1)
    case LineString(_, _) => Success(2)
    case Polygon(_, _) => Success(3)
    case MultiPoint(_, _) => Success(4)
    case MultiLineString(_, _) => Success(5)
    case MultiPolygon(_, _) => Success(6)
    case GeometryCollection(_, _) => Success(7)
    case Unsupported(name) => Failure(UnsupportedClass(name))
  }

  /** The wire code of each class, and of that class only. */
  lemma TypeCodeTable(g: Geometry)
    ensures g.Point? <==> TypeCode(g) == Success(1)
    ensures g.LineString? <==> TypeCode(g) == Success(2)
    ensures g.Polygon? <==> TypeCode(g) == Success(3)
    ensures g.MultiPoint? <==> TypeCode(g) == Success(4)
    ensures g.MultiLineString? <==> TypeCode(g) == Success(5)
    ensures g.MultiPolygon? <==> TypeCode(g) == Success(6)
    ensures g.GeometryCollection? <==> TypeCode(g) == Success(7)
  {
  }

  /*
   * The type word: the base type in bits 0-28, the SRID flag in bit 29, M in
   * bit 30 and Z in bit 31.  On a 32-bit word, `word & bit != 0` is bit `k`
   * of the binary expansion and `word & 0x1fffffff` is the remainder modulo
   * 2^29, which is how they are written here.
   */
  const ZBit: uint32 := 0x8000_0000
  const MBit: uint32 := 0x4000_0000
  const SridBit: uint32 := 0x2000_0000
  const TypeMask: uint32 := 0x1fff_ffff

  predicate ZFlag(word: uint32) { word / ZBit % 2 == 1 }
  predicate MFlag(word: uint32) { word / MBit % 2 == 1 }
  predicate SridFlag(word: uint32) { word / SridBit % 2 == 1 }
  function BaseType(word: uint32): uint32 { word % (TypeMask + 1) }

  /** The word the writer emits: the code with the Z, M and SRID bits or-ed in. */
  function TypeWord(code: uint32, hasZ: bool, hasM: bool, hasSrid: bool): (word: uint32)
    requires 1 <= code <= 7
    ensures ZFlag(word) == hasZ && MFlag(word) == hasM && SridFlag(word) == hasSrid
    ensures BaseType(word) == code
  {
    code + (if hasZ then ZBit else 0) + (if hasM then MBit else 0) + (if hasSrid then SridBit else 0)
  }

  /**
   * A point written as a flat child under a header that declares `hasZ` and
   * `hasM`: a point of exactly those dimensions and without an SRID, since a
   * flat child's SRID is never written and never read.
   */
  predicate FlatPoint(p: Geometry, hasZ: bool, hasM: bool)
  {
    p.Point? && p.z.Some? == hasZ && p.m.Some? == hasM && p.srid == None
  }

  /** The bytes of a point body under a header that declares `hasZ` and `hasM`. */
  function PointSize(hasZ: bool, hasM: bool): nat
  {
    16 + (if hasZ then 8 else 0) + (if hasM then 8 else 0)
  }

  /** Moving the base one stride on takes one stride off the distance. */
  lemma StrideShift(base: int, s: int, d: int)
    ensures base + (d + 1) * s == (base + s) + d * s
  {
  }

  /** A ring written as a flat child of a polygon: a line string of flat points. */
  predicate FlatRing(r: Geometry, hasZ: bool, hasM: bool)
  {
    r.LineString? && r.srid == None && forall p | p in r.points :: FlatPoint(p, hasZ, hasM)
  }

  /** The four containers whose children are complete, independently headed geometries. */
  datatype CollectionKind = MultiPointKind | MultiLineStringKind | MultiPolygonKind | AnyKind

  /** The `isinstance` check a container applies to a child; a collection takes anything. */
  predicate Admits(k: CollectionKind, child: Geometry)
  {
    match k
    case MultiPointKind => child.Point?
    case MultiLineStringKind => child.LineString?
    case MultiPolygonKind => child.Polygon?
    case AnyKind => true
  }
}
