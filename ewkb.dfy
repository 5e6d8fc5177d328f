/**
 * The public entry points of `Geometry`: `read_ewkb`, which turns the hex
 * text PostGIS returns into a geometry, and `write_ewkb`, which turns a
 * geometry into lower-case hex text, together with what they guarantee of
 * each other.
 */
module Ewkb {
  import opened Wrappers
  import opened Bytes
  import opened Geometries
  import opened Hex
  import opened Decoding
  import opened Encoding
  import opened RoundTrip
  import opened Reading
  import opened Writing

  /**
   * `Geometry.read_ewkb(value)`: `None` for a missing or empty value;
   * otherwise the hex text is decoded and one geometry is read from the
   * start of the bytes, whatever follows it.
   */
  function DecodeEwkb(value: Option<string>): (r: Result<Option<Geometry>, Error>)
    ensures r == Success(None) <==> value.None? || value.value == []
    ensures value.Some? && value.value != [] && HexDecode(value.value).Failure? ==> r == Failure(InvalidHex)
  {
    if value.None? || value.value == [] then Success(None)
    else
      var data :- HexDecode(value.value);
      var parsed :- ParseGeometry(data, 0);
      Success(Some(parsed.0))
  }

  /** `g.write_ewkb()`: the hex spelling of the header and body the writer emits. */
  function EncodeEwkb(g: Geometry): (r: Result<string, Error>)
    ensures r.Success? <==> Writable(g)
    ensures r.Failure? ==> Serialize(g).Failure? && r.error == Serialize(g).error
    ensures r.Success? ==> forall i | 0 <= i < |r.value| :: '0' <= r.value[i] <= '9' || 'a' <= r.value[i] <= 'f'
    ensures r.Success? ==> HexDecode(r.value) == Serialize(g)
  {
    SerializeSucceedsIff(g);
    var data :- Serialize(g);
    HexRoundTrip(data);
    Success(HexEncode(data))
  }

  /** `Geometry.read_ewkb` as the source runs it: a `BytesIO` over the decoded text and a reader on it. */
  method ReadEwkb(value: Option<string>) returns (r: Result<Option<Geometry>, Error>)
    ensures r == DecodeEwkb(value)
  {
    if value.None? || value.value == [] {
      return Success(None);
    }
    var data := HexDecode(value.value);
    if data.Failure? {
      return Failure(data.error);
    }
    var stream := new Stream(data.value);
    var reader := new Reader(stream);
    var g := reader.ReadGeometry();
    if g.Failure? {
      return Failure(g.error);
    }
    r := Success(Some(g.value));
  }

  /** `Geometry.write_ewkb` as the source runs it: a writer on a fresh buffer, the body, then `b2a_hex`. */
  method WriteEwkb(g: Geometry) returns (r: Result<string, Error>)
    ensures r == EncodeEwkb(g)
  {
    var writer := NewWriter(g, None);
    if writer.Failure? {
      return Failure(writer.error);
    }
    ghost var header := writer.value.stream.bytes;
    var e := WriteBody(writer.value, g);
    if e.Fail? {
      return Failure(e.error);
    }
    assert writer.value.stream.bytes == Serialize(g).value by {
      assert header == SerializeHeader(g).value;
    }
    r := Success(HexEncode(writer.value.stream.bytes));
  }

  /**
   * Reading back what `write_ewkb` wrote gives the same geometry, for every
   * geometry the writer accepts whose flat children match the dimensions of
   * the first one and carry no SRID, and whose composites carry no SRID 0.
   */
  lemma EwkbRoundTrip(g: Geometry)
    requires Canonical(g) && Writable(g)
    ensures EncodeEwkb(g).Success? && DecodeEwkb(Some(EncodeEwkb(g).value)) == Success(Some(g))
  {
    SerializeSucceedsIff(g);
    var data := Serialize(g).value;
    HexRoundTrip(data);
    ReadBack(g, data, 0, |data|);
  }

  /** `read_ewkb` stops after one geometry: whatever bytes follow it in the text are ignored. */
  lemma TrailingBytesIgnored(g: Geometry, extra: seq<byte>)
    requires Canonical(g) && Writable(g)
    ensures EncodeEwkb(g).Success?
    ensures DecodeEwkb(Some(EncodeEwkb(g).value + HexEncode(extra))) == Success(Some(g))
  {
    SerializeSucceedsIff(g);
    var data := Serialize(g).value;
    HexEncodeConcat(data, extra);
    HexRoundTrip(data + extra);
    assert At(data + extra, 0, data);
    ReadBack(g, data + extra, 0, |data|);
  }

  /**
   * The reader reads the points of a line string with the dimensions its
   * header declares, which the writer takes from the first point, and
   * without SRIDs.
   */
  lemma ReadLineStringFlat(g: Geometry, data: seq<byte>)
    requires g.LineString? && Serialize(g).Success? && At(data, 0, Serialize(g).value)
    ensures ParseGeometry(data, 0).Success? ==>
      var l := ParseGeometry(data, 0).value.0;
      l.LineString? && forall p | p in l.points :: FlatPoint(p, DeclaresZ(g), DeclaresM(g))
  {
    AtConcat(data, 0, SerializeHeader(g).value, SerializeBody(g).value);
    var h := ParseHeaderAt(g, data, 0);
    if ParseLineStringBody(data, h.end, h.order, ZFlag(h.word), MFlag(h.word), h.srid).Success? {
      LineStringFlat(data, h.end, h.order, ZFlag(h.word), MFlag(h.word), h.srid);
    }
  }

  /**
   * The writer writes every point of a line string as it is, so a line
   * string with a point of other dimensions than the first, or a point with
   * an SRID, does not come back.
   */
  lemma LineStringDimensionsLost(g: Geometry)
    requires g.LineString? && Writable(g)
    requires exists p | p in g.points :: !FlatPoint(p, DeclaresZ(g), DeclaresM(g))
    ensures EncodeEwkb(g).Success? && DecodeEwkb(Some(EncodeEwkb(g).value)) != Success(Some(g))
  {
    SerializeSucceedsIff(g);
    var data := Serialize(g).value;
    HexRoundTrip(data);
    ReadLineStringFlat(g, data);
  }

  /**
   * The line string of the source's own usage example: a plain point
   * followed by a point with z.  The header declares no Z, so the z of the
   * second point does not come back.
   */
  lemma MixedLineStringLosesZ(x1: Float64, y1: Float64, x2: Float64, y2: Float64, z2: Float64)
    ensures var g := LineString([Point(x1, y1, None, None, None), Point(x2, y2, Some(z2), None, None)], None);
      EncodeEwkb(g).Success? && DecodeEwkb(Some(EncodeEwkb(g).value)) != Success(Some(g))
  {
    var g := LineString([Point(x1, y1, None, None, None), Point(x2, y2, Some(z2), None, None)], None);
    assert g.Elements()[0] == Point(x1, y1, None, None, None) && HasZ(g) == Success(false);
    assert g.points[1] in g.points && !FlatPoint(g.points[1], DeclaresZ(g), DeclaresM(g));
    assert LineStringWritable(g.points);
    LineStringDimensionsLost(g);
  }

  /**
   * The reader accepts a line string without points, which the writer
   * cannot encode: `has_z` asks for the first point of an empty list.
   */
  lemma EmptyLineStringReadOnly()
    ensures ParseGeometry([0x01, 0x02, 0x00, 0x00, 0x00, 0x00, 0x00, 0x00, 0x00], 0) == Success((LineString([], None), 9))
    ensures EncodeEwkb(LineString([], None)) == Failure(EmptyComposite)
  {
    var data: seq<byte> := [0x01, 0x02, 0x00, 0x00, 0x00, 0x00, 0x00, 0x00, 0x00];
    assert ParseInt(data, 1, LittleEndian) == Success(2) && ParseInt(data, 5, LittleEndian) == Success(0);
    var h := Header(LittleEndian, 2, None, 5);
    assert ParseHeader(data, 0) == Success(h);
    assert ParseBody(data, h) == ParseLineStringBody(data, 5, LittleEndian, false, false, None);
  }
}
