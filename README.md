# ppygis3 EWKB codec, modelled in Dafny

ppygis3 stores PostGIS geometries in PostgreSQL. It turns the seven geometry
classes (Point, LineString, Polygon, MultiPoint, MultiLineString,
MultiPolygon, GeometryCollection) into Extended Well-Known Binary (EWKB) and
back. It reads the hex text PostGIS returns with `Geometry.read_ewkb`, and it
writes the hex text it sends with `write_ewkb`.

This project models that codec:

- `_EWKBReader`. A byte-order byte, a type word whose top three bits are the
  Z, M and SRID flags, an optional SRID, then a body chosen by the base type.
- `_EWKBWriter`. It always writes little-endian. It takes `has_z` and `has_m`
  from the first element of a composite.
- The `_read_ewkb_body` and `_write_ewkb_body` methods of every class.
- `read_ewkb`, `_read_ewkb`, `write_ewkb` and `_write_ewkb`.

The model has two layers:

- **Functions** (`Decoding`, `Encoding`, `Hex`) state what each reader and
  writer computes from the whole byte stream. Every error the source raises
  is a `Failure` value: a bad byte order, an unsupported type code, a
  truncated read, a child of the wrong class, an unsupported class, an empty
  composite, a count that does not fit in 32 bits, and malformed hex.
- **Imperative code** (`Reading`, `Writing`, `Ewkb`) follows the source's
  structure:
  - a `BytesIO`-like `Stream` with a cursor that every child reader shares;
  - a `Buffer` that every child writer appends to;
  - reader and writer classes;
  - loops for the list comprehensions and `for` loops.

  Each method is proved to return, or to append, exactly what the
  corresponding function gives.

`RoundTrip` and `Ewkb` prove that reading back what the writer emits gives
the same geometry, whatever bytes precede or follow it in the stream. This
holds for every geometry that is both `Writable` and `Canonical`:

- `Writable`: the writer does not raise. The geometry is one of the seven
  classes. No composite on the path of first elements is empty. Every child
  passes its container's `isinstance` check. Every count is below 2^32.
- `Canonical`: the geometry is already in the form the reader builds. Each
  flat child (a point of a line string, a ring of a polygon, a point of such
  a ring) has exactly the dimensions the first point declares. No flat child
  carries an SRID, since a flat child's SRID is neither written nor read. No
  composite carries the SRID 0, which its constructor would drop.

The same modules show what does not come back:

- a line string whose points have mixed dimensions, as in the source's own
  example at `test.py:19`;
- an empty composite, which can be read but not written.

Modules: `Wrappers` (Option, Result, Outcome), `Bytes` (bytes, 32-bit words,
doubles as their eight bytes), `Geometries`, `Hex`, `Decoding`, `Encoding`,
`Reading`, `Writing`, `RoundTrip`, `Ewkb`.

## Model

| member | source | states |
|---|---|---|
| Bytes.PackUint32LE | ppygis3/ppygis3.py:115-116 | `struct.pack('<I', n)` gives four bytes that read back little-endian as `n` |
| Bytes.PackUnpackUint32LE | ppygis3/ppygis3.py:75-76 | every four bytes are the little-endian packing of the word they read as, so packing and unpacking are inverse |
| Bytes.Uint32AtSplice | ppygis3/ppygis3.py:75-76 | a packed word reads back as the same value wherever it sits in a stream |
| Bytes.PackDoubleLE | ppygis3/ppygis3.py:118-119 | `struct.pack('<d', x)` gives eight bytes that read back little-endian as `x` |
| Geometries.KeepSrid | ppygis3/ppygis3.py:211-214 | a composite constructor keeps an SRID exactly when it is present and nonzero (`if srid:`) |
| Geometries.HasZ | ppygis3/ppygis3.py:123-125 | `has_z`: a point has it iff it has `z`; a composite asks its first element; the base class says no; the only error is the IndexError of an empty composite |
| Geometries.HasM | ppygis3/ppygis3.py:127-129 | `has_m`, derived like `has_z`; the only error is the IndexError of an empty composite |
| Geometries.DimensionsDefinedIff | ppygis3/ppygis3.py:216-222 | `has_z`/`has_m` of a composite ask its first element; they succeed exactly when no composite on that path is empty, and otherwise fail with the IndexError of `[0]` |
| Geometries.HasSrid | ppygis3/ppygis3.py:131-133 | `has_srid` holds exactly for an object of the seven classes that has an `srid` attribute, and never for an unsupported class |
| Geometries.TypeCode | ppygis3/ppygis3.py:85-101 | the writer's `isinstance` chain gives a code in 1..7 for each of the seven classes (`Geometries.TypeCodeTable` says which); it raises "unsupported geometry class" with the class name for any other object |
| Geometries.TypeCodeTable | ppygis3/ppygis3.py:85-97 | the wire code of each class, and of that class only: Point 1, LineString 2, Polygon 3, MultiPoint 4, MultiLineString 5, MultiPolygon 6, GeometryCollection 7 |
| Geometries.TypeWord | ppygis3/ppygis3.py:104-108 | the type word carries the Z flag (0x80000000) iff `has_z`, the M flag (0x40000000) iff `has_m`, the SRID flag (0x20000000) iff `has_srid`, and the class code under the mask 0x1fffffff |
| Geometries.Admits | ppygis3/ppygis3.py:320-324 | the `isinstance` check of each container: points, line strings, polygons, anything for a collection; its meaning is carried by `Decoding.CollectionAdmitted` and `Encoding.TaggedMembersSucceedIff` |
| Hex.HexEncode | ppygis3/ppygis3.py:151 | `b2a_hex` gives two lower-case hex digits per byte |
| Hex.HexDecode | ppygis3/ppygis3.py:137 | `a2b_hex` succeeds exactly on even-length text made of hex digits of either case, giving half as many bytes; any other text fails |
| Hex.HexDecodeIgnoresCase | ppygis3/ppygis3.py:137 | `a2b_hex` gives the same bytes, or the same failure, for text and for its lower-cased form, so the upper-case hex PostGIS returns decodes like `b2a_hex` output |
| Hex.HexRoundTrip | ppygis3/ppygis3.py:137 | decoding the hex text `b2a_hex` produced gives back the bytes |
| Hex.HexEncodeConcat | ppygis3/ppygis3.py:151 | the hex of a concatenation is the concatenation of the hexes |
| Decoding.ParseByteOrder | ppygis3/ppygis3.py:44-50 | byte 0x00 is big-endian, 0x01 little-endian; any other byte, or no byte, raises "invalid EWKB encoding" |
| Decoding.ParseInt | ppygis3/ppygis3.py:75-76 | `read_int` succeeds iff four bytes remain, otherwise it is a truncation error |
| Decoding.ParseDouble | ppygis3/ppygis3.py:78-79 | `read_double` succeeds iff eight bytes remain, otherwise it is a truncation error |
| Decoding.ParseHeader | ppygis3/ppygis3.py:43-56 | the header is the byte order, then the type word, then an SRID exactly when the SRID bit is set; the order is the one the first byte names, and the word and SRID are read in it; it is 5 or 9 bytes; it succeeds iff the order byte is valid and enough bytes remain |
| Decoding.ParsePointBody | ppygis3/ppygis3.py:186-193 | a point body is x at +0 and y at +8, then z at +16 iff the header has Z, then m after it iff the header has M; the point's dimensions are the header's and its SRID the one passed in; a short body is a truncation error |
| Decoding.ParsePoints | ppygis3/ppygis3.py:226-227 | the comprehension reads exactly `count` points after those already read and stays within the data; where each point lies is `Decoding.PointsLayout` |
| Decoding.PointsLayout | ppygis3/ppygis3.py:226-227 | the points already read stay in front; the `i`-th new point is a headerless point body in the parent's byte order and dimensions, read from `pos + i * size` to `pos + (i + 1) * size`, and the loop ends after `count` strides |
| Decoding.ParseLineStringBody | ppygis3/ppygis3.py:224-227 | a line-string body gives a LineString with the SRID its constructor keeps; it is at least the four bytes of the count, and without them it is a truncation error |
| Decoding.LineStringLayout | ppygis3/ppygis3.py:224-227 | the line string holds as many points as the count word says; they follow the count without headers, in the parent's byte order and dimensions, the `i`-th at `pos + 4 + i * size`, so the body is `4 + n * size` bytes |
| Decoding.ParseRings | ppygis3/ppygis3.py:258-259 | the comprehension reads exactly `count` rings after those already read; one turn is the first ring, then the rest (`Decoding.RingsCons`); where each ring lies is `Decoding.RingsLayout` |
| Decoding.RingsLayout | ppygis3/ppygis3.py:258-259 | the rings already read stay in front; the `i`-th new ring is a line-string body without header, in the parent's byte order and dimensions, starting where the one before it ended |
| Decoding.ParsePolygonBody | ppygis3/ppygis3.py:256-259 | a polygon body gives a Polygon with the SRID its constructor keeps; it is at least the four bytes of the count, and without them it is a truncation error |
| Decoding.PolygonLayout | ppygis3/ppygis3.py:256-259 | the polygon holds as many rings as the count word says; they follow the count one after another, each a line-string body without header in the parent's byte order and dimensions |
| Decoding.Assemble | ppygis3/ppygis3.py:303-307 | each container's constructor builds its own class from the members read, and drops a zero SRID |
| Decoding.ParseGeometry | ppygis3/ppygis3.py:43-73 | `read_geometry` consumes at least one byte and never reads past the end |
| Decoding.ParseBody | ppygis3/ppygis3.py:58-73 | dispatch on the masked base type: a geometry read from a header is of the class that type code names; a code outside 1..7 fails with that code; the body ends after the header and within the data; `Decoding.PolygonDispatch` and `Decoding.CollectionDispatch` unfold the branches for codes 3 to 7 |
| Decoding.KindCode | ppygis3/ppygis3.py:64-71 | the four containers are read for base types 4..7 |
| Decoding.ParseCollectionBody | ppygis3/ppygis3.py:317-325 | a container body gives the container of its kind, built from the members read, with the SRID its constructor keeps; without the four bytes of the count it is a truncation error |
| Decoding.CollectionLayout | ppygis3/ppygis3.py:317-325 | the container holds as many members as the count word says; they follow the count one after another, each a complete geometry with its own header, as `ParseGeometry` reads it |
| Decoding.ParseMembers | ppygis3/ppygis3.py:319-324 | the member loop reads exactly `count` geometries after those already read and stays within the data; where each member lies is `Decoding.MembersLayout` |
| Decoding.MembersLayout | ppygis3/ppygis3.py:319-324 | the members already read stay in front; the `i`-th new member is a complete geometry, header included, read by `ParseGeometry` from where the one before it ended |
| Decoding.PointsFlat | ppygis3/ppygis3.py:226-227 | every point read in a line string has the header's dimensions and no SRID |
| Decoding.LineStringFlat | ppygis3/ppygis3.py:224-227 | a line string read as a body holds only flat points of the header's dimensions |
| Decoding.RingsFlat | ppygis3/ppygis3.py:258-259 | every ring read in a polygon is a line string of flat points of the header's dimensions, with no SRID |
| Decoding.PolygonFlat | ppygis3/ppygis3.py:256-259 | a polygon read as a body holds only flat rings of the header's dimensions |
| Decoding.MembersAdmitted | ppygis3/ppygis3.py:320-324 | every member a container reads passed its `isinstance` check |
| Decoding.CollectionAdmitted | ppygis3/ppygis3.py:317-325 | a MultiPoint holds only points, a MultiLineString only line strings, a MultiPolygon only polygons; a GeometryCollection holds any kind |
| Encoding.Cat | ppygis3/ppygis3.py:229-235 | output written in sequence: the first exception wins, and without exceptions the bytes are concatenated |
| Encoding.PackCount | ppygis3/ppygis3.py:230 | `write_int(len(...))` succeeds iff the count fits in 32 bits, and its four bytes read back as the count |
| Encoding.HeaderBytes | ppygis3/ppygis3.py:103-110 | a header is 0x01, then the type word, then the SRID when there is one (5 or 9 bytes), and each field reads back at its offset |
| Encoding.SerializeHeader | ppygis3/ppygis3.py:83-110 | `_EWKBWriter.__init__` raises "unsupported geometry class" for an unknown class and IndexError for an empty composite; otherwise it succeeds |
| Encoding.HeaderFields | ppygis3/ppygis3.py:103-110 | the header written starts with 0x01; its type word's base is the class code and its Z, M and SRID flags are `has_z`, `has_m` and `has_srid`; the SRID follows iff `has_srid` |
| Encoding.PointBody | ppygis3/ppygis3.py:195-201 | a point body is 16 bytes plus 8 for z and 8 for m when present: x at +0, y at +8, z at +16, then m, each reading back little-endian as the coordinate |
| Encoding.FlatPoints | ppygis3/ppygis3.py:231-235 | the point loop of a line string; its only error is "invalid geometry", and `Encoding.FlatPointsSucceedIff` says when it raises |
| Encoding.LineStringBody | ppygis3/ppygis3.py:229-235 | a line-string body starts with a little-endian count word equal to the number of points; it can raise only the count overflow or "invalid geometry" |
| Encoding.FlatPointsSucceedIff | ppygis3/ppygis3.py:231-235 | the point loop succeeds iff every child is a Point, and otherwise raises "invalid geometry" |
| Encoding.FlatPointsPieces | ppygis3/ppygis3.py:231-235 | points of any dimensions, mixed ones included, are written without headers, one after another: the `i`-th point's body fills the next piece, as long as that body |
| Encoding.FlatPointsLayout | ppygis3/ppygis3.py:231-235 | the corollary for points of the same dimensions: the `i`-th point's body fills bytes `i * size` to `(i + 1) * size` |
| Encoding.LineStringBodyLayout | ppygis3/ppygis3.py:229-235 | a line-string body of points of the same dimensions is the count, then the point bodies: `4 + n * size` bytes |
| Encoding.LineStringBodySucceedsIff | ppygis3/ppygis3.py:229-235 | a line-string body can be written iff its count fits and every child is a Point |
| Encoding.FlatRings | ppygis3/ppygis3.py:263-267 | the ring loop of a polygon; it can raise only the count overflow or "invalid geometry", and `Encoding.FlatRingsSucceedIff` says when |
| Encoding.PolygonBody | ppygis3/ppygis3.py:261-267 | a polygon body starts with a little-endian count word equal to the number of rings; it can raise only the count overflow or "invalid geometry" |
| Encoding.FlatRingsSucceedIff | ppygis3/ppygis3.py:261-267 | a polygon's rings can be written iff every ring is a LineString whose children are all Points |
| Encoding.FlatRingsLayout | ppygis3/ppygis3.py:263-267 | the rings of a polygon are written one after another, each as a line-string body without header |
| Encoding.FlatRingsWrongKind | ppygis3/ppygis3.py:263-267 | a ring that is not a LineString raises "invalid geometry" when no other ring raises first |
| Encoding.TaggedMembers | ppygis3/ppygis3.py:327-333 | the member loop of a container; it raises only writer errors, and `Encoding.TaggedMembersSucceedIff` says when |
| Encoding.CollectionBody | ppygis3/ppygis3.py:327-333 | a container body starts with a little-endian count word equal to the number of members; it raises only writer errors |
| Encoding.TaggedMembersSucceedIff | ppygis3/ppygis3.py:327-333 | a container's members can be written iff each passes the container's `isinstance` check and can itself be written |
| Encoding.TaggedMembersLayout | ppygis3/ppygis3.py:327-333 | the members of a container are written one after another, each admitted by the container and written whole, header included, exactly as `Serialize` gives it |
| Encoding.TaggedMembersWrongKind | ppygis3/ppygis3.py:329-333 | a member that fails the container's `isinstance` check raises "invalid geometry" when every member could otherwise be written |
| Encoding.SerializeBody | ppygis3/ppygis3.py:195-407 | `_write_ewkb_body` of each class; it raises only writer errors, and `Encoding.SerializeBodySucceedsIff` says when |
| Encoding.SerializeBodySucceedsIff | ppygis3/ppygis3.py:195-296 | `_write_ewkb_body` succeeds iff the body is writable, for each of the seven classes |
| Encoding.Serialize | ppygis3/ppygis3.py:148-157 | the bytes `write_ewkb` hex-encodes and `_write_ewkb` appends: they start with the little-endian marker 0x01 and are at least a header long; only writer errors are raised; `Encoding.SerializeSucceedsIff` and `RoundTrip.ReadBack` carry the rest of its meaning |
| Encoding.SerializeSucceedsIff | ppygis3/ppygis3.py:148-151 | the writer raises for exactly the geometries `Writable` excludes: unknown classes, empty composites, wrong child kinds, and counts of 2^32 or more |
| Reading.Stream.Read | ppygis3/ppygis3.py:76 | `BytesIO.read(n)` returns the next `n` bytes, or what remains, and advances the cursor past them |
| Reading.Stream.constructor | ppygis3/ppygis3.py:137 | `BytesIO(data)` opens a stream on the decoded bytes with its cursor at 0 |
| Reading.Reader.constructor | ppygis3/ppygis3.py:37-38 | a reader wraps the stream it is given |
| Reading.Reader.ChildReader | ppygis3/ppygis3.py:40-41 | a child reader is a new reader on the same stream, so the cursor is shared |
| Reading.Reader.ReadInt | ppygis3/ppygis3.py:75-76 | `read_int` returns `ParseInt` at the cursor, in the reader's byte order, and advances by four bytes |
| Reading.Reader.ReadDouble | ppygis3/ppygis3.py:78-79 | `read_double` returns `ParseDouble` at the cursor and advances by eight bytes |
| Reading.Reader.ReadGeometry | ppygis3/ppygis3.py:43-73 | `read_geometry` returns what `ParseGeometry` gives at the cursor, error included, and leaves the cursor at its end position |
| Reading.Reader.ReadBody | ppygis3/ppygis3.py:58-73 | the dispatch returns what `ParseBody` gives for the header just read |
| Reading.ReadPointBody | ppygis3/ppygis3.py:186-193 | `Point._read_ewkb_body` returns what `ParsePointBody` gives with the reader's order and flags |
| Reading.ReadPoints | ppygis3/ppygis3.py:226-227 | the comprehension loop returns what `ParsePoints` gives |
| Reading.ReadLineStringBody | ppygis3/ppygis3.py:224-227 | `LineString._read_ewkb_body` returns what `ParseLineStringBody` gives |
| Reading.ReadRings | ppygis3/ppygis3.py:258-259 | the ring comprehension loop returns what `ParseRings` gives |
| Reading.ReadPolygonBody | ppygis3/ppygis3.py:256-259 | `Polygon._read_ewkb_body` returns what `ParsePolygonBody` gives |
| Reading.ReadCollectionBody | ppygis3/ppygis3.py:317-325 | the member loop of the four containers (a collection checks no kind) returns what `ParseCollectionBody` gives |
| Reading.ReadMember | ppygis3/ppygis3.py:140-142 | `_read_ewkb` reads one complete geometry with a fresh reader on the shared stream |
| Writing.Buffer.constructor | ppygis3/ppygis3.py:84 | a fresh `BytesIO()` is empty |
| Writing.Buffer.Write | ppygis3/ppygis3.py:116 | `write` appends its bytes |
| Writing.Writer.constructor | ppygis3/ppygis3.py:83-84 | a writer holds the buffer it is given |
| Writing.Writer.ChildWriter | ppygis3/ppygis3.py:112-113 | a child writer shares the buffer and appends the child's header; when the header raises, it raises the same error, having appended 0x01 for an empty composite and nothing for an unknown class |
| Writing.Writer.WriteHeader | ppygis3/ppygis3.py:85-110 | `__init__` appends exactly `SerializeHeader`; when it raises, it has appended 0x01 for an empty composite (written before `has_z` is asked) and nothing for an unknown class |
| Writing.Writer.WriteInt | ppygis3/ppygis3.py:115-116 | `write_int` appends the four little-endian bytes, or raises without writing when the value does not fit |
| Writing.Writer.WriteDouble | ppygis3/ppygis3.py:118-119 | `write_double` appends the eight little-endian bytes of the double |
| Writing.NewWriter | ppygis3/ppygis3.py:83-110 | the writer's buffer is the one given, or a fresh empty one; it then holds what it held before followed by the header; on the header's error a given buffer has gained 0x01 for an empty composite and nothing for an unknown class |
| Writing.WritePointBody | ppygis3/ppygis3.py:195-201 | `Point._write_ewkb_body` appends exactly `PointBody` |
| Writing.WriteLineStringBody | ppygis3/ppygis3.py:229-235 | the count, then each point's body; it appends exactly `LineStringBody`, or raises its error |
| Writing.WritePolygonBody | ppygis3/ppygis3.py:261-267 | the count, then each ring's line-string body; it appends exactly `PolygonBody`, or raises its error |
| Writing.WriteCollectionBody | ppygis3/ppygis3.py:327-333 | the count, then each admitted member with its own header; it appends exactly `CollectionBody`, or raises its error |
| Writing.WriteMember | ppygis3/ppygis3.py:156-157 | `_write_ewkb` appends exactly `Serialize` of the member: its header through a child writer, then its body; for an unknown class it raises the child writer's "unsupported geometry class", which assumes the class defines `_write_ewkb_body` |
| Writing.WriteBody | ppygis3/ppygis3.py:195-296 | the `_write_ewkb_body` of each class appends exactly `SerializeBody` |
| RoundTrip.SerializeHeaderWord | ppygis3/ppygis3.py:103-110 | the header written carries a word with the class code, and flags agreeing with the first element's dimensions and the SRID |
| RoundTrip.ParseHeaderAt | ppygis3/ppygis3.py:43-56 | the reader reads back the writer's header as little-endian, with the class code, the flags and the SRID |
| RoundTrip.ParsePointAt | ppygis3/ppygis3.py:186-201 | a point body written is read back as the same coordinates |
| RoundTrip.ParsePointsAt | ppygis3/ppygis3.py:226-233 | the points of a line string are read back when they have the declared dimensions and no SRID |
| RoundTrip.ParseRingsAt | ppygis3/ppygis3.py:258-265 | the rings of a polygon are read back when they are flat |
| RoundTrip.ParseMembersAt | ppygis3/ppygis3.py:319-331 | the members of a container are read back, each with its own header |
| RoundTrip.ParseSerialized | ppygis3/ppygis3.py:43-73 | a canonical geometry is read back from the bytes written for it, and the read stops right after them; stated over a non-recursive "written at" predicate so that it can serve as the induction step for members, where `RoundTrip.ReadBack` is the form stated over `Serialize` |
| RoundTrip.ReadBack | ppygis3/ppygis3.py:148-151 | whatever precedes or follows it in the stream, the encoding of a canonical geometry decodes to the same geometry and ends where the encoding ends |
| Ewkb.DecodeEwkb | ppygis3/ppygis3.py:135-138 | `read_ewkb` returns nothing exactly for a missing or empty value, and fails on malformed hex |
| Ewkb.EncodeEwkb | ppygis3/ppygis3.py:148-151 | `write_ewkb` succeeds iff the geometry is writable and otherwise raises the writer's error; the text is lower-case hex that decodes to the bytes written |
| Ewkb.ReadEwkb | ppygis3/ppygis3.py:135-138 | the reader over a `BytesIO` of the decoded text returns `DecodeEwkb` |
| Ewkb.WriteEwkb | ppygis3/ppygis3.py:148-151 | a writer on a fresh buffer, the body, then `b2a_hex`, returns `EncodeEwkb` |
| Ewkb.EwkbRoundTrip | ppygis3/ppygis3.py:135-151 | `read_ewkb(write_ewkb(g))` is `g` for every writable canonical geometry |
| Ewkb.TrailingBytesIgnored | ppygis3/ppygis3.py:135-138 | `read_ewkb` of an encoding followed by any further bytes still gives the geometry |
| Ewkb.ReadLineStringFlat | ppygis3/ppygis3.py:224-227 | reading back a written line string gives only points of the first point's dimensions, without SRIDs |
| Ewkb.LineStringDimensionsLost | ppygis3/ppygis3.py:216-235 | a line string with a point whose dimensions differ from the first point's, or with an SRID, is not read back as written |
| Ewkb.MixedLineStringLosesZ | test.py:19 | the usage example's line string, a plain point then a point with z, does not come back from `read_ewkb(write_ewkb(...))` |
| Ewkb.EmptyLineStringReadOnly | ppygis3/ppygis3.py:216-227 | an empty line string is read from `01 02000000 00000000` but cannot be written: `has_z` raises |

## Left out

- PostgreSQL integration through psycopg2 is not modelled: `__conform__`, `getquoted`, and the registration of the GEOMETRY type with `new_type`/`register_type`. These are foreign calls.
- `__str__` and `_str_srid` are not modelled. They only format text for display.
- Doubles are kept as the eight bytes of their IEEE-754 image. No floating-point arithmetic or comparison is modelled, and none is needed: the codec only copies doubles. Two NaNs with the same bits count as equal, where Python's `==` would say they differ.
- SRIDs are 32-bit unsigned in the model. The source's `write_int(geometry.srid)` would raise for a negative SRID or one of 2^32 or more. That case is not modelled.
- Coordinates are typed as doubles. `struct.pack('<d', x)` raising for a non-number is not modelled.
- `read_ewkb` takes `Option<string>`. The cursor argument is unused by the source and is not modelled. So is Python's truthiness of other falsy values.
- Writing.WriteLineStringBody: when it raises, the contract only says that the buffer kept its earlier contents, not which partial output was appended before the exception; the source discards that buffer.
- Writing.WritePolygonBody: when it raises, the contract only says that the buffer kept its earlier contents, not which partial output was appended before the exception; the source discards that buffer.
- Writing.WriteCollectionBody: when it raises, the contract only says that the buffer kept its earlier contents, not which partial output was appended before the exception; the source discards that buffer.
- Writing.WriteMember: when it raises, the contract only says that the buffer kept its earlier contents, not which partial output was appended before the exception; the source discards that buffer.
- Writing.WriteBody: when it raises, the contract only says that the buffer kept its earlier contents, not which partial output was appended before the exception; the source discards that buffer.
- Writing.NewWriter: without a given stream, a failure says nothing about the fresh buffer. The source never returns it.
- The `Unsupported` constructor stands for a subclass of `Geometry` that defines `_write_ewkb_body` but is none of the seven classes. Its `has_z` and `has_m` are the base class's False (ppygis3/ppygis3.py:123-129). At the top level `write_ewkb` raises "unsupported geometry class" with its class name (ppygis3/ppygis3.py:99). As a flat child or as a member of a Multi* container it fails the `isinstance` check and raises "invalid geometry". As a member of a GeometryCollection it reaches `_write_ewkb`, whose child writer raises "unsupported geometry class". The model has it carry no SRID, so the base class's `has_srid` is not modelled for it; the writer raises before that matters.
- A bare `Geometry()`, or any subclass without `_write_ewkb_body`, is not distinguished from `Unsupported`. Inside a GeometryCollection the source raises AttributeError at ppygis3/ppygis3.py:157, because `self._write_ewkb_body` is looked up before `writer.child_writer(self)` runs; the model raises "unsupported geometry class" there instead. The bytes written before the error are the same, and at the top level both raise "unsupported geometry class" at line 99.
- Objects that are not `Geometry` instances are not modelled. In the source, a non-`Geometry` first point of a line string would make `self.points[0].has_z` raise AttributeError (ppygis3/ppygis3.py:218).
- The model's `Geometry` datatype is a closed sum of the seven classes. User subclasses of them, which `isinstance` would accept, are not modelled.
- The datatype admits a composite whose SRID is `Some(0)`. The source's constructors never build one (`if srid:` drops it). So the round-trip lemmas require composites to have no SRID 0.
