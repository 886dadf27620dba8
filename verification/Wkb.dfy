/** The recursive WKB reader of `demo/cog-viewer/formats.js`, and the encoding of
    section 8.2 of OGC 06-103r4 as its specification. */
module Wkb {
  import opened Prelude
  import opened Bytes

  /** A float64 is an opaque 8-byte value, written here high byte first. */
  type Float64 = f: seq<Byte> | |f| == 8 witness [0, 0, 0, 0, 0, 0, 0, 0]

  datatype Position = Position(x: Float64, y: Float64)

  /** A GeoJSON `coordinates` member; a GeometryCollection has none. */
  datatype Coords = Undefined | Pos(p: Position) | List(items: seq<Coords>)

  datatype Kind = Point | LineString | Polygon | MultiPoint | MultiLineString | MultiPolygon

  datatype Geometry = Geom(kind: Kind, coords: Coords) | Collection(geometries: seq<Geometry>)

  function CoordinatesOf(g: Geometry): Coords {
    match g
    case Geom(_, c) => c
    case Collection(_) => Undefined
  }

  function AllCoordinates(gs: seq<Geometry>): seq<Coords> {
    seq(|gs|, i requires 0 <= i < |gs| => CoordinatesOf(gs[i]))
  }

  // ------------------------------------------------------------ what is read

  /** A read that ran past the end of the view throws; `Fail` stands for that. */
  datatype Read<+T> = Fail | Ok(value: T, offset: nat)

  predicate Fits(view: seq<Byte>, offset: nat, n: nat) {
    offset + n <= |view|
  }

  function U32At(view: seq<Byte>, offset: nat, le: bool): nat
    requires Fits(view, offset, 4)
  {
    U32(view[offset..offset + 4], le)
  }

  function F64At(view: seq<Byte>, offset: nat, le: bool): Float64
    requires Fits(view, offset, 8)
  {
    var b := view[offset..offset + 8];
    if le then Reverse(b) else b
  }

  function PositionAt(view: seq<Byte>, offset: nat, le: bool): Position
    requires Fits(view, offset, 16)
  {
    Position(F64At(view, offset, le), F64At(view, offset + 8, le))
  }

  /** `n` more positions, after those already in `acc`. */
  function ReadPositions(view: seq<Byte>, offset: nat, le: bool, n: nat, acc: seq<Coords>): (r: Read<seq<Coords>>)
    requires offset <= |view|
    ensures r.Ok? ==> r.offset == offset + 16 * n <= |view|
    decreases n
  {
    if n == 0 then Ok(acc, offset)
    else if !Fits(view, offset, 16) then Fail
    else ReadPositions(view, offset + 16, le, n - 1, acc + [Pos(PositionAt(view, offset, le))])
  }

  function ReadRings(view: seq<Byte>, offset: nat, le: bool, n: nat, acc: seq<Coords>): (r: Read<seq<Coords>>)
    requires offset <= |view|
    ensures r.Ok? ==> offset + 4 * n <= r.offset <= |view|
    decreases n
  {
    if n == 0 then Ok(acc, offset)
    else if !Fits(view, offset, 4) then Fail
    else
      var ring := ReadPositions(view, offset + 4, le, U32At(view, offset, le), []);
      if ring.Fail? then Fail
      else ReadRings(view, ring.offset, le, n - 1, acc + [List(ring.value)])
  }

  /** `n` more nested geometries, each with its own byte order and type; those of
      an unknown type are skipped. */
  function ReadItems(view: seq<Byte>, offset: nat, n: nat, acc: seq<Geometry>): (r: Read<seq<Geometry>>)
    requires offset <= |view|
    ensures r.Ok? ==> offset + 5 * n <= r.offset <= |view|
    decreases |view| - offset, 0
  {
    if n == 0 then Ok(acc, offset)
    else if !Fits(view, offset, 5) then Fail
    else
      var le := view[offset] == 1;
      var res := ReadGeometry(view, offset + 5, le, U32At(view, offset + 1, le) % 65536);
      if res.Fail? then Fail
      else ReadItems(view, res.offset, n - 1, if res.value.Some? then acc + [res.value.value] else acc)
  }

  function ReadGeometry(view: seq<Byte>, offset: nat, le: bool, geomType: nat): (r: Read<Option<Geometry>>)
    requires offset <= |view|
    ensures r.Ok? ==> offset <= r.offset <= |view|
    decreases |view| - offset, 1
  {
    if geomType == 1 || geomType == 2001 then
      if !Fits(view, offset, 16) then Fail
      else Ok(Some(Geom(Point, Pos(PositionAt(view, offset, le)))), offset + 16)
    else if 2 <= geomType <= 7 || 2002 <= geomType <= 2007 then
      if !Fits(view, offset, 4) then Fail
      else
        var n := U32At(view, offset, le);
        var code := geomType % 1000;
        if code == 2 then
          var r := ReadPositions(view, offset + 4, le, n, []);
          if r.Fail? then Fail else Ok(Some(Geom(LineString, List(r.value))), r.offset)
        else if code == 3 then
          var r := ReadRings(view, offset + 4, le, n, []);
          if r.Fail? then Fail else Ok(Some(Geom(Polygon, List(r.value))), r.offset)
        else
          var r := ReadItems(view, offset + 4, n, []);
          if r.Fail? then Fail else Ok(Some(Assemble(code, r.value)), r.offset)
    else Ok(None, offset)
  }

  /** The geometry made of nested ones. */
  function Assemble(code: nat, gs: seq<Geometry>): Geometry {
    if code == 4 then Geom(MultiPoint, List(AllCoordinates(gs)))
    else if code == 5 then Geom(MultiLineString, List(AllCoordinates(gs)))
    else if code == 6 then Geom(MultiPolygon, List(AllCoordinates(gs)))
    else Collection(gs)
  }

  /** `decodeWkb`: the geometry, or None for anything short, malformed or unknown. */
  function Decode(buf: seq<Byte>): Option<Geometry> {
    if |buf| < 5 then None
    else
      var le := buf[0] == 1;
      var r := ReadGeometry(buf, 5, le, U32At(buf, 1, le) % 65536);
      if r.Fail? then None else r.value
  }

  // ---------------------------------------------------------- the reading loops

  method ReadPositionLoop(view: seq<Byte>, start: nat, le: bool, n: nat) returns (r: Read<seq<Coords>>)
    requires start <= |view|
    ensures r == ReadPositions(view, start, le, n, [])
  {
    var offset := start;
    var coords: seq<Coords> := [];
    for i := 0 to n
      invariant start <= offset <= |view|
      invariant ReadPositions(view, start, le, n, []) == ReadPositions(view, offset, le, n - i, coords)
    {
      if !Fits(view, offset, 16) {
        return Fail;
      }
      coords := coords + [Pos(PositionAt(view, offset, le))];
      offset := offset + 16;
    }
    return Ok(coords, offset);
  }

  method ReadRingLoop(view: seq<Byte>, start: nat, le: bool, n: nat) returns (r: Read<seq<Coords>>)
    requires start <= |view|
    ensures r == ReadRings(view, start, le, n, [])
  {
    var offset := start;
    var rings: seq<Coords> := [];
    for i := 0 to n
      invariant start <= offset <= |view|
      invariant ReadRings(view, start, le, n, []) == ReadRings(view, offset, le, n - i, rings)
    {
      if !Fits(view, offset, 4) {
        return Fail;
      }
      var numPts := U32At(view, offset, le);
      offset := offset + 4;
      var ring := ReadPositionLoop(view, offset, le, numPts);
      if ring.Fail? {
        return Fail;
      }
      rings := rings + [List(ring.value)];
      offset := ring.offset;
    }
    return Ok(rings, offset);
  }

  method ReadItemLoop(view: seq<Byte>, start: nat, n: nat) returns (r: Read<seq<Geometry>>)
    requires start <= |view|
    ensures r == ReadItems(view, start, n, [])
    decreases |view| - start, 0
  {
    hide ReadGeometry, U32At;
    var offset := start;
    var geoms: seq<Geometry> := [];
    for i := 0 to n
      invariant start <= offset <= |view|
      invariant ReadItems(view, start, n, []) == ReadItems(view, offset, n - i, geoms)
    {
      if !Fits(view, offset, 5) {
        return Fail;
      }
      var innerLe := view[offset] == 1;
      var innerType := U32At(view, offset + 1, innerLe) % 65536;
      var res := ReadGeometryAt(view, offset + 5, innerLe, innerType);
      if res.Fail? {
        return Fail;
      }
      if res.value.Some? {
        geoms := geoms + [res.value.value];
      }
      offset := res.offset;
    }
    return Ok(geoms, offset);
  }

  /** `wkbReadGeometry` */
  method ReadGeometryAt(view: seq<Byte>, start: nat, le: bool, geomType: nat) returns (r: Read<Option<Geometry>>)
    requires start <= |view|
    ensures r == ReadGeometry(view, start, le, geomType)
    decreases |view| - start, 1
  {
    hide ReadItems, ReadRings, ReadPositions, U32At, F64At, Assemble;
    var offset := start;
    if geomType == 1 || geomType == 2001 {
      if !Fits(view, offset, 16) {
        return Fail;
      }
      return Ok(Some(Geom(Point, Pos(PositionAt(view, offset, le)))), offset + 16);
    }
    if !(2 <= geomType <= 7 || 2002 <= geomType <= 2007) {
      return Ok(None, offset);
    }
    if !Fits(view, offset, 4) {
      return Fail;
    }
    var n := U32At(view, offset, le);
    offset := offset + 4;
    if geomType == 2 || geomType == 2002 {
      var coords := ReadPositionLoop(view, offset, le, n);
      if coords.Fail? { return Fail; }
      return Ok(Some(Geom(LineString, List(coords.value))), coords.offset);
    }
    if geomType == 3 || geomType == 2003 {
      var rings := ReadRingLoop(view, offset, le, n);
      if rings.Fail? { return Fail; }
      return Ok(Some(Geom(Polygon, List(rings.value))), rings.offset);
    }
    var items := ReadItemLoop(view, offset, n);
    if items.Fail? { return Fail; }
    return Ok(Some(Assemble(geomType % 1000, items.value)), items.offset);
  }

  method DecodeWkb(buf: seq<Byte>) returns (r: Option<Geometry>)
    ensures r == Decode(buf)
  {
    if |buf| < 5 {
      return None;
    }
    var le := buf[0] == 1;
    var geomType := U32At(buf, 1, le) % 65536;
    var res := ReadGeometryAt(buf, 5, le, geomType);
    return if res.Fail? then None else res.value;
  }

  // ------------------------------------------------------------------- encoding

  /** A geometry as it is written: the byte order mark (1 means little-endian, any
      other byte big-endian), the type code, and what stands in the upper half of the
      type word, zero in the standard. */
  datatype Node = Node(mark: Byte, flags: nat, code: nat, shape: Shape) {
    predicate Le() { mark == 1 }
  }

  /** Behind an unknown type code nothing is read. */
  datatype Shape =
    | PointShape(p: Position)
    | LineShape(ps: seq<Position>)
    | PolygonShape(rings: seq<seq<Position>>)
    | PartsShape(parts: seq<Node>)
    | NoShape

  /** The type codes of each shape: those of the standard, and 2000 more. */
  predicate Suits(code: nat, s: Shape) {
    match s
    case PointShape(_) => code == 1 || code == 2001
    case LineShape(_) => code == 2 || code == 2002
    case PolygonShape(_) => code == 3 || code == 2003
    case PartsShape(_) => 4 <= code <= 7 || 2004 <= code <= 2007
    case NoShape => !(1 <= code <= 7 || 2001 <= code <= 2007)
  }

  /** The type code suits and every count fits in 32 bits. */
  ghost predicate WellFormed(n: Node) {
    n.flags < 65536 && n.code < 65536 && Suits(n.code, n.shape) &&
    match n.shape
    case PointShape(_) => true
    case LineShape(ps) => |ps| < U32_LIMIT
    case PolygonShape(rings) => |rings| < U32_LIMIT && forall r :: r in rings ==> |r| < U32_LIMIT
    case PartsShape(parts) => |parts| < U32_LIMIT && forall m :: m in parts ==> WellFormed(m)
    case NoShape => true
  }

  function PutF64(f: Float64, le: bool): (b: seq<Byte>)
    ensures |b| == 8
  {
    if le then Reverse(f) else f
  }

  function PutPosition(p: Position, le: bool): (b: seq<Byte>)
    ensures |b| == 16
  {
    PutF64(p.x, le) + PutF64(p.y, le)
  }

  function PutPositions(ps: seq<Position>, le: bool): (b: seq<Byte>)
    ensures |b| == 16 * |ps|
  {
    if ps == [] then [] else PutPosition(ps[0], le) + PutPositions(ps[1..], le)
  }

  function PutRings(rings: seq<seq<Position>>, le: bool): seq<Byte>
    requires forall r :: r in rings ==> |r| < U32_LIMIT
  {
    if rings == [] then []
    else PutU32(|rings[0]|, le) + PutPositions(rings[0], le) + PutRings(rings[1..], le)
  }

  function PutParts(parts: seq<Node>): seq<Byte>
    requires forall m :: m in parts ==> WellFormed(m)
  {
    if parts == [] then [] else Encode(parts[0]) + PutParts(parts[1..])
  }

  function Body(n: Node): seq<Byte>
    requires WellFormed(n)
    decreases n, 0
  {
    match n.shape
    case PointShape(p) => PutPosition(p, n.Le())
    case LineShape(ps) => PutU32(|ps|, n.Le()) + PutPositions(ps, n.Le())
    case PolygonShape(rings) => PutU32(|rings|, n.Le()) + PutRings(rings, n.Le())
    case PartsShape(parts) => PutU32(|parts|, n.Le()) + PutParts(parts)
    case NoShape => []
  }

  function TypeWord(n: Node): (w: nat)
    requires n.flags < 65536 && n.code < 65536
    ensures w < U32_LIMIT && w % 65536 == n.code
  {
    n.flags * 65536 + n.code
  }

  function Header(n: Node): (b: seq<Byte>)
    requires n.flags < 65536 && n.code < 65536
    ensures |b| == 5
  {
    [n.mark] + PutU32(TypeWord(n), n.Le())
  }

  /** Byte order, type code, body. */
  function Encode(n: Node): (b: seq<Byte>)
    requires WellFormed(n)
    ensures |b| == 5 + |Body(n)|
    decreases n, 1
  {
    Header(n) + Body(n)
  }

  function PositionList(ps: seq<Position>): seq<Coords> {
    seq(|ps|, i requires 0 <= i < |ps| => Pos(ps[i]))
  }

  function RingList(rings: seq<seq<Position>>): seq<Coords> {
    seq(|rings|, i requires 0 <= i < |rings| => List(PositionList(rings[i])))
  }

  /** The GeoJSON geometry that a node stands for, if its type is known. */
  function ToGeoJson(n: Node): Option<Geometry> {
    match n.shape
    case PointShape(p) => Some(Geom(Point, Pos(p)))
    case LineShape(ps) => Some(Geom(LineString, List(PositionList(ps))))
    case PolygonShape(rings) => Some(Geom(Polygon, List(RingList(rings))))
    case PartsShape(parts) =>
      if n.code % 1000 == 7 then Some(Collection(PartList(parts)))
      else Some(Geom(MultiKind(n.code % 1000), List(PartCoordinates(parts))))
    case NoShape => None
  }

  function MultiKind(code: nat): Kind {
    if code == 4 then MultiPoint else if code == 5 then MultiLineString else MultiPolygon
  }

  /** The coordinates of the parts of known type; a nested collection has none. */
  function PartCoordinates(parts: seq<Node>): seq<Coords> {
    if parts == [] then []
    else
      var rest := PartCoordinates(parts[1..]);
      match ToGeoJson(parts[0])
      case None => rest
      case Some(Geom(_, c)) => [c] + rest
      case Some(Collection(_)) => [Undefined] + rest
  }

  function PartList(parts: seq<Node>): seq<Geometry> {
    if parts == [] then [] else Present(ToGeoJson(parts[0])) + PartList(parts[1..])
  }

  function Present(g: Option<Geometry>): seq<Geometry> {
    if g.Some? then [g.value] else []
  }

  // ----------------------------------------------------------------- round trip

  lemma PositionHeld(view: seq<Byte>, off: nat, p: Position, le: bool)
    requires Holds(view, off, PutPosition(p, le))
    ensures Fits(view, off, 16) && PositionAt(view, off, le) == p
  {
    HoldsSplit(view, off, PutF64(p.x, le), PutF64(p.y, le));
    ReverseTwice(p.x);
    ReverseTwice(p.y);
  }

  lemma U32Held(view: seq<Byte>, off: nat, n: nat, le: bool)
    requires n < U32_LIMIT && Holds(view, off, PutU32(n, le))
    ensures Fits(view, off, 4) && U32At(view, off, le) == n
  {
    U32RoundTrip(n, le);
  }

  lemma {:induction false} PositionsHeld(view: seq<Byte>, off: nat, ps: seq<Position>, le: bool, acc: seq<Coords>)
    requires Holds(view, off, PutPositions(ps, le))
    ensures ReadPositions(view, off, le, |ps|, acc) == Ok(acc + PositionList(ps), off + 16 * |ps|)
    decreases |ps|
  {
    if ps == [] {
      assert acc + PositionList(ps) == acc;
    } else {
      HoldsSplit(view, off, PutPosition(ps[0], le), PutPositions(ps[1..], le));
      PositionHeld(view, off, ps[0], le);
      PositionsHeld(view, off + 16, ps[1..], le, acc + [Pos(ps[0])]);
      assert acc + [Pos(ps[0])] + PositionList(ps[1..]) == acc + PositionList(ps);
    }
  }

  lemma {:induction false} RingsHeld(view: seq<Byte>, off: nat, rings: seq<seq<Position>>, le: bool, acc: seq<Coords>)
    requires forall r :: r in rings ==> |r| < U32_LIMIT
    requires Holds(view, off, PutRings(rings, le))
    ensures ReadRings(view, off, le, |rings|, acc) == Ok(acc + RingList(rings), off + |PutRings(rings, le)|)
    decreases |rings|
  {
    hide Holds, PutU32, U32At, ReadPositions, PutPositions, PositionList;
    if rings == [] {
      assert acc + RingList(rings) == acc;
    } else {
      hide RingList, ReadRings;
      var r, rest := rings[0], rings[1..];
      var first := PutU32(|r|, le) + PutPositions(r, le);
      assert PutRings(rings, le) == first + PutRings(rest, le);
      HoldsSplit(view, off, first, PutRings(rest, le));
      RingRead(view, off, r, le, |rings|, acc);
      var next := off + 4 + 16 * |r|;
      assert next == off + |first|;
      RingsHeld(view, next, rest, le, acc + [List(PositionList(r))]);
      RingListCons(rings, acc);
    }
  }

  lemma RingListCons(rings: seq<seq<Position>>, acc: seq<Coords>)
    requires rings != []
    ensures acc + [List(PositionList(rings[0]))] + RingList(rings[1..]) == acc + RingList(rings)
  {
    hide PositionList;
  }

  /** One pass of the loop over rings. */
  lemma RingRead(view: seq<Byte>, off: nat, r: seq<Position>, le: bool, n: nat, acc: seq<Coords>)
    requires n > 0 && |r| < U32_LIMIT && Holds(view, off, PutU32(|r|, le) + PutPositions(r, le))
    ensures Fits(view, off, 4 + 16 * |r|)
    ensures ReadRings(view, off, le, n, acc) ==
            ReadRings(view, off + 4 + 16 * |r|, le, n - 1, acc + [List(PositionList(r))])
  {
    hide PutU32, U32At, ReadPositions, PutPositions, PositionList, Holds;
    RingHeld(view, off, r, le);
  }

  lemma RingHeld(view: seq<Byte>, off: nat, r: seq<Position>, le: bool)
    requires |r| < U32_LIMIT && Holds(view, off, PutU32(|r|, le) + PutPositions(r, le))
    ensures Fits(view, off, 4) && U32At(view, off, le) == |r|
    ensures ReadPositions(view, off + 4, le, |r|, []) == Ok(PositionList(r), off + 4 + 16 * |r|)
  {
    HoldsSplit(view, off, PutU32(|r|, le), PutPositions(r, le));
    U32Held(view, off, |r|, le);
    PositionsHeld(view, off + 4, r, le, []);
    assert [] + PositionList(r) == PositionList(r);
  }

  lemma {:induction false} PartsHeld(view: seq<Byte>, off: nat, parts: seq<Node>, acc: seq<Geometry>)
    requires forall m :: m in parts ==> WellFormed(m)
    requires Holds(view, off, PutParts(parts))
    ensures ReadItems(view, off, |parts|, acc) == Ok(acc + PartList(parts), off + |PutParts(parts)|)
    decreases parts, 0
  {
    hide Encode, Body, Holds, ReadGeometry, ToGeoJson, WellFormed, Header, Present;
    if parts == [] {
      assert acc + PartList(parts) == acc;
    } else {
      hide ReadItems;
      var m, rest := parts[0], parts[1..];
      HoldsSplit(view, off, Encode(m), PutParts(rest));
      HeaderHeld(view, off, m);
      BodyHeld(view, off + 5, m);
      PartRead(view, off, m, |parts|, acc);
      PartsHeld(view, off + |Encode(m)|, rest, acc + Present(ToGeoJson(m)));
      PartListCons(parts, acc);
    }
  }

  lemma PartListCons(parts: seq<Node>, acc: seq<Geometry>)
    requires parts != []
    ensures acc + Present(ToGeoJson(parts[0])) + PartList(parts[1..]) == acc + PartList(parts)
  {
    hide ToGeoJson, Present;
  }

  /** One pass of the loop over nested geometries. */
  lemma PartRead(view: seq<Byte>, off: nat, m: Node, n: nat, acc: seq<Geometry>)
    requires WellFormed(m) && n > 0 && Holds(view, off, Encode(m))
    requires ReadGeometry(view, off + 5, m.Le(), m.code) == Ok(ToGeoJson(m), off + |Encode(m)|)
    ensures ReadItems(view, off, n, acc) == ReadItems(view, off + |Encode(m)|, n - 1, acc + Present(ToGeoJson(m)))
  {
    hide ReadGeometry, Encode, ToGeoJson, U32At, Holds, WellFormed, Body;
    HeaderHeld(view, off, m);
    assert acc + [] == acc;
  }

  lemma HeaderHeld(view: seq<Byte>, off: nat, n: Node)
    requires WellFormed(n) && Holds(view, off, Encode(n))
    ensures Fits(view, off, 5) && (view[off] == 1) == n.Le() && U32At(view, off + 1, n.Le()) % 65536 == n.code
    ensures Holds(view, off + 5, Body(n))
  {
    HoldsSplit(view, off, Header(n), Body(n));
    HeaderRead(view, off, n);
    hide Holds, Header, Body, U32At;
  }

  lemma HeaderRead(view: seq<Byte>, off: nat, n: Node)
    requires n.flags < 65536 && n.code < 65536 && Holds(view, off, Header(n))
    ensures Fits(view, off, 5) && (view[off] == 1) == n.Le() && U32At(view, off + 1, n.Le()) % 65536 == n.code
  {
    HoldsSplit(view, off, [n.mark], PutU32(TypeWord(n), n.Le()));
    U32Held(view, off + 1, TypeWord(n), n.Le());
    assert view[off..off + 1][0] == view[off];
    hide PutU32, U32At, TypeWord;
  }

  // How the reader goes about each kind of geometry.

  lemma ReadPoint(view: seq<Byte>, off: nat, le: bool, code: nat)
    requires (code == 1 || code == 2001) && Fits(view, off, 16)
    ensures ReadGeometry(view, off, le, code) == Ok(Some(Geom(Point, Pos(PositionAt(view, off, le)))), off + 16)
  {
    hide PositionAt;
  }

  lemma ReadLine(view: seq<Byte>, off: nat, le: bool, code: nat, count: nat)
    requires (code == 2 || code == 2002) && Fits(view, off, 4) && U32At(view, off, le) == count
    ensures ReadGeometry(view, off, le, code) ==
            (var r := ReadPositions(view, off + 4, le, count, []);
             if r.Fail? then Fail else Ok(Some(Geom(LineString, List(r.value))), r.offset))
  {
    hide ReadPositions, U32At;
  }

  lemma ReadPolygon(view: seq<Byte>, off: nat, le: bool, code: nat, count: nat)
    requires (code == 3 || code == 2003) && Fits(view, off, 4) && U32At(view, off, le) == count
    ensures ReadGeometry(view, off, le, code) ==
            (var r := ReadRings(view, off + 4, le, count, []);
             if r.Fail? then Fail else Ok(Some(Geom(Polygon, List(r.value))), r.offset))
  {
    hide ReadRings, U32At;
  }

  lemma ReadParts(view: seq<Byte>, off: nat, le: bool, code: nat, count: nat)
    requires (4 <= code <= 7 || 2004 <= code <= 2007) && Fits(view, off, 4) && U32At(view, off, le) == count
    ensures ReadGeometry(view, off, le, code) ==
            (var r := ReadItems(view, off + 4, count, []);
             if r.Fail? then Fail else Ok(Some(Assemble(code % 1000, r.value)), r.offset))
  {
    hide ReadItems, U32At, Assemble;
  }

  lemma ReadNothing(view: seq<Byte>, off: nat, le: bool, code: nat)
    requires !(1 <= code <= 7 || 2001 <= code <= 2007) && off <= |view|
    ensures ReadGeometry(view, off, le, code) == Ok(None, off)
  {
  }

  /** The reader, pointed at the body of an encoded geometry anywhere in a buffer,
      gives back the geometry and stops exactly where the encoding does. */
  lemma {:induction false} BodyHeld(view: seq<Byte>, off: nat, n: Node)
    requires WellFormed(n) && Holds(view, off, Body(n))
    ensures ReadGeometry(view, off, n.Le(), n.code) == Ok(ToGeoJson(n), off + |Body(n)|)
    decreases n, 1
  {
    hide Holds, PutU32, U32At, PositionAt, ReadPositions, PutPositions, ReadRings, PutRings, Assemble, ReadGeometry,
         PutPosition, PositionList, RingList;
    match n.shape
    case PointShape(p) =>
      PositionHeld(view, off, p, n.Le());
      ReadPoint(view, off, n.Le(), n.code);
    case LineShape(ps) =>
      HoldsSplit(view, off, PutU32(|ps|, n.Le()), PutPositions(ps, n.Le()));
      U32Held(view, off, |ps|, n.Le());
      ReadLine(view, off, n.Le(), n.code, |ps|);
      PositionsHeld(view, off + 4, ps, n.Le(), []);
      assert [] + PositionList(ps) == PositionList(ps);
    case PolygonShape(rings) =>
      HoldsSplit(view, off, PutU32(|rings|, n.Le()), PutRings(rings, n.Le()));
      U32Held(view, off, |rings|, n.Le());
      ReadPolygon(view, off, n.Le(), n.code, |rings|);
      RingsHeld(view, off + 4, rings, n.Le(), []);
      assert [] + RingList(rings) == RingList(rings);
    case PartsShape(parts) =>
      CountedPartsHeld(view, off, n, parts);
    case NoShape =>
      PrefixHeld(view, off, Body(n), 0);
      ReadNothing(view, off, n.Le(), n.code);
  }

  lemma {:induction false} CountedPartsHeld(view: seq<Byte>, off: nat, n: Node, parts: seq<Node>)
    requires WellFormed(n) && n.shape.PartsShape? && parts == n.shape.parts
    requires Holds(view, off, Body(n))
    ensures ReadGeometry(view, off, n.Le(), n.code) == Ok(ToGeoJson(n), off + |Body(n)|)
    decreases n, 0
  {
    PartsOf(n, parts);
    hide *;
    HoldsSplit(view, off, PutU32(|parts|, n.Le()), PutParts(parts));
    U32Held(view, off, |parts|, n.Le());
    ReadParts(view, off, n.Le(), n.code, |parts|);
    PartsHeld(view, off + 4, parts, []);
    assert [] + PartList(parts) == PartList(parts);
  }

  /** What the decoder reads after the header. */
  lemma DecodeBody(buf: seq<Byte>, n: Node)
    requires n.flags < 65536 && n.code < 65536 && Holds(buf, 0, Header(n))
    ensures Decode(buf) == (var r := ReadGeometry(buf, 5, n.Le(), n.code); if r.Fail? then None else r.value)
  {
    HeaderRead(buf, 0, n);
    hide ReadGeometry, U32At, Header;
  }

  lemma WholeIsHeld(buf: seq<Byte>)
    ensures Holds(buf, 0, buf)
  {
    assert buf[0..0 + |buf|] == buf;
  }

  /** Multi* geometries and collections, alike. */
  lemma PartsOf(n: Node, parts: seq<Node>)
    requires WellFormed(n) && n.shape.PartsShape? && parts == n.shape.parts
    ensures 4 <= n.code <= 7 || 2004 <= n.code <= 2007
    ensures |parts| < U32_LIMIT && forall m :: m in parts ==> WellFormed(m)
    ensures Body(n) == PutU32(|parts|, n.Le()) + PutParts(parts)
    ensures ToGeoJson(n) == Some(Assemble(n.code % 1000, PartList(parts)))
  {
    PartsAssembled(parts);
    hide PutU32, PutParts, PartList, PartCoordinates, AllCoordinates;
  }

  lemma {:induction false} PartsAssembled(parts: seq<Node>)
    ensures AllCoordinates(PartList(parts)) == PartCoordinates(parts)
  {
    if parts != [] {
      PartsAssembled(parts[1..]);
      hide ToGeoJson;
      var g, rest := ToGeoJson(parts[0]), PartList(parts[1..]);
      if g.Some? { assert AllCoordinates([g.value] + rest) == [CoordinatesOf(g.value)] + AllCoordinates(rest); }
      else { assert [] + rest == rest; }
    }
  }

  /** Decoding an encoding gives the geometry back, whatever byte order each
      nested node was written in and whatever stands in the upper half of its type
      word, and the reader stops exactly at the end. */
  lemma RoundTrip(n: Node)
    requires WellFormed(n)
    ensures Decode(Encode(n)) == ToGeoJson(n)
    ensures ReadGeometry(Encode(n), 5, n.Le(), n.code) == Ok(ToGeoJson(n), |Encode(n)|)
  {
    var buf := Encode(n);
    WholeIsHeld(buf);
    HoldsSplit(buf, 0, Header(n), Body(n));
    hide *;
    DecodeBody(buf, n);
    BodyHeld(buf, 5, n);
  }

  // ----------------------------------------------------------------- SRID bytes

  /** An encoding whose header is followed by the SRID that a flag in the upper half
      of the type word announces. The decoder masks the flag and does not skip it. */
  function WithSrid(n: Node, srid: nat): seq<Byte>
    requires WellFormed(n) && srid < U32_LIMIT
  {
    Header(n) + (PutU32(srid, n.Le()) + Body(n))
  }

  lemma SridHeld(n: Node, srid: nat)
    requires WellFormed(n) && srid < U32_LIMIT
    ensures var buf := WithSrid(n, srid);
            && Holds(buf, 5, PutU32(srid, n.Le()) + Body(n)) && |buf| == 9 + |Body(n)|
            && Fits(buf, 5, 4) && U32At(buf, 5, n.Le()) == srid
            && Decode(buf) == (var r := ReadGeometry(buf, 5, n.Le(), n.code); if r.Fail? then None else r.value)
  {
    var buf, rest := WithSrid(n, srid), PutU32(srid, n.Le()) + Body(n);
    WholeIsHeld(buf);
    HoldsSplit(buf, 0, Header(n), rest);
    HoldsSplit(buf, 5, PutU32(srid, n.Le()), Body(n));
    hide *;
    DecodeBody(buf, n);
    U32Held(buf, 5, srid, n.Le());
  }

  ghost predicate WordAt(b: seq<Byte>, k: nat, w: seq<Byte>) {
    4 * k + 4 <= |b| && b[4 * k..4 * k + 4] == w
  }

  /** `b` is `w` again and again. */
  ghost predicate Repeats(b: seq<Byte>, w: seq<Byte>) {
    forall k: nat :: k < |b| / 4 ==> WordAt(b, k, w)
  }

  /** Putting a word in front changes nothing exactly when there is nothing but
      that word. */
  lemma ShiftedSame(w: seq<Byte>, b: seq<Byte>)
    requires |w| == 4 && |b| % 4 == 0
    ensures (w + b)[..|b|] == b <==> Repeats(b, w)
  {
    if (w + b)[..|b|] == b {
      forall k: nat | k < |b| / 4 ensures WordAt(b, k, w) {
        WordFollows(w, b, k);
      }
    }
    if Repeats(b, w) {
      forall i | 0 <= i < |b| ensures (w + b)[i] == b[i] {
        ByteOfWord(w, b, i);
        if i >= 4 { ByteOfWord(w, b, i - 4); }
      }
    }
  }

  lemma ByteOfWord(w: seq<Byte>, b: seq<Byte>, i: nat)
    requires |w| == 4 && i < |b| && |b| % 4 == 0 && Repeats(b, w)
    ensures b[i] == w[i % 4]
  {
    var k := i / 4;
    assert WordAt(b, k, w);
    assert b[i] == b[4 * k..4 * k + 4][i % 4];
  }

  lemma {:induction false} WordFollows(w: seq<Byte>, b: seq<Byte>, k: nat)
    requires |w| == 4 && |b| % 4 == 0 && (w + b)[..|b|] == b && k < |b| / 4
    ensures WordAt(b, k, w)
  {
    var c := w + b;
    assert b[4 * k..4 * k + 4] == c[..|b|][4 * k..4 * k + 4] == c[4 * k..4 * k + 4];
    if k == 0 {
      assert c[0..4] == w;
    } else {
      WordFollows(w, b, k - 1);
      assert c[4 * k..4 * k + 4] == b[4 * (k - 1)..4 * (k - 1) + 4];
    }
  }

  /** The positions that stand at an offset, which written again give the same bytes. */
  function PositionsAt(view: seq<Byte>, off: nat, le: bool, n: nat): (ps: seq<Position>)
    requires off + 16 * n <= |view|
    ensures |ps| == n && PutPositions(ps, le) == view[off..off + 16 * n]
    decreases n
  {
    if n == 0 then []
    else
      var p, rest := PositionAt(view, off, le), PositionsAt(view, off + 16, le, n - 1);
      PositionWritten(view, off, le);
      assert ([p] + rest)[1..] == rest;
      [p] + rest
  }

  lemma PositionWritten(view: seq<Byte>, off: nat, le: bool)
    requires Fits(view, off, 16)
    ensures PutPosition(PositionAt(view, off, le), le) == view[off..off + 16]
  {
    ReverseTwice(view[off..off + 8]);
    ReverseTwice(view[off + 8..off + 16]);
    assert view[off..off + 16] == view[off..off + 8] + view[off + 8..off + 16];
  }

  /** Reading `n` positions fails exactly when there are fewer bytes. */
  lemma {:induction false} PositionsRead(view: seq<Byte>, off: nat, le: bool, n: nat, acc: seq<Coords>)
    requires off <= |view|
    ensures ReadPositions(view, off, le, n, acc) ==
            if off + 16 * n <= |view| then Ok(acc + PositionList(PositionsAt(view, off, le, n)), off + 16 * n) else Fail
    decreases n
  {
    if off + 16 * n <= |view| {
      PositionsHeld(view, off, PositionsAt(view, off, le, n), le, acc);
    } else if Fits(view, off, 16) {
      PositionsRead(view, off + 16, le, n - 1, acc + [Pos(PositionAt(view, off, le))]);
    }
  }

  lemma SameBytesSamePositions(a: seq<Position>, b: seq<Position>, le: bool)
    requires |a| == |b|
    ensures PutPositions(a, le) == PutPositions(b, le) <==> a == b
  {
    if PutPositions(a, le) == PutPositions(b, le) {
      var view := PutPositions(a, le);
      WholeIsHeld(view);
      PositionsHeld(view, 0, a, le, []);
      PositionsHeld(view, 0, b, le, []);
      hide PutPositions, ReadPositions, Holds;
      assert [] + PositionList(a) == [] + PositionList(b);
      assert PositionList(a) == ([] + PositionList(a)) && PositionList(b) == ([] + PositionList(b));
      ListDetermines(a, b);
    }
  }

  lemma ListDetermines(a: seq<Position>, b: seq<Position>)
    requires PositionList(a) == PositionList(b)
    ensures a == b
  {
    var s, t := PositionList(a), PositionList(b);
    assert |a| == |s| == |t| == |b|;
    forall i | 0 <= i < |a| ensures a[i] == b[i] {
      assert s[i] == Pos(a[i]) && t[i] == Pos(b[i]);
    }
  }

  /** With its SRID present a point always decodes, to the position that starts with
      the SRID's bytes; so it decodes to itself if and only if each of the four words
      of its body equals the SRID. */
  lemma SridOnPoint(n: Node, srid: nat)
    requires WellFormed(n) && n.shape.PointShape? && srid < U32_LIMIT
    ensures var r := Decode(WithSrid(n, srid));
            && r.Some? && r.value.Geom? && r.value.kind == Point && r.value.coords.Pos?
            && PutPosition(r.value.coords.p, n.Le()) == (PutU32(srid, n.Le()) + Body(n))[..16]
    ensures Decode(WithSrid(n, srid)) == ToGeoJson(n) <==> Repeats(Body(n), PutU32(srid, n.Le()))
  {
    hide *;
    var buf, w, p := WithSrid(n, srid), PutU32(srid, n.Le()), n.shape.p;
    var body := PutPosition(p, n.Le());
    SridHeld(n, srid);
    BodySize(n);
    PrefixHeld(buf, 5, w + body, 16);
    PositionWritten(buf, 5, n.Le());
    var q := PositionAt(buf, 5, n.Le());
    ReadPoint(buf, 5, n.Le(), n.code);
    SamePosition(p, q, n.Le());
    ShiftedSame(w, body);
  }

  lemma PrefixHeld(view: seq<Byte>, off: nat, part: seq<Byte>, k: nat)
    requires Holds(view, off, part) && k <= |part|
    ensures Fits(view, off, k) && view[off..off + k] == part[..k]
  {
    assert view[off..off + |part|][..k] == view[off..off + k];
  }

  lemma SamePosition(p: Position, q: Position, le: bool)
    ensures PutPosition(p, le) == PutPosition(q, le) <==> p == q
  {
    var a, b := PutPosition(p, le), PutPosition(q, le);
    if a == b {
      WholeIsHeld(a);
      PositionHeld(a, 0, p, le);
      PositionHeld(a, 0, q, le);
    }
  }

  /** In a line string the SRID is read as the number of points: it decodes at all if
      and only if that is at most the real number, and to itself if and only if it
      is the real number and the points repeat the SRID's bytes. */
  lemma SridOnLine(n: Node, srid: nat)
    requires WellFormed(n) && n.shape.LineShape? && srid < U32_LIMIT
    ensures Decode(WithSrid(n, srid)).Some? <==> srid <= |n.shape.ps|
    ensures var r := Decode(WithSrid(n, srid));
            r.Some? ==>
              r.value.Geom? && r.value.kind == LineString && r.value.coords.List? && |r.value.coords.items| == srid
    ensures Decode(WithSrid(n, srid)) == ToGeoJson(n) <==>
            srid == |n.shape.ps| && Repeats(PutPositions(n.shape.ps, n.Le()), PutU32(srid, n.Le()))
  {
    SridLine(n, srid);
    hide WithSrid, Decode, PutPositions, PositionsAt, Repeats, PositionList, PutU32;
    if srid <= |n.shape.ps| {
      PositionListLength(PositionsAt(WithSrid(n, srid), 9, n.Le(), srid));
      PositionListLength(n.shape.ps);
    }
    if srid == |n.shape.ps| { SridLineSame(n, srid); }
  }

  lemma BodySize(n: Node)
    requires WellFormed(n)
    ensures n.shape.PointShape? ==>
              && (n.code == 1 || n.code == 2001) && Body(n) == PutPosition(n.shape.p, n.Le())
              && ToGeoJson(n) == Some(Geom(Point, Pos(n.shape.p)))
    ensures n.shape.LineShape? ==>
              && (n.code == 2 || n.code == 2002) && |Body(n)| == 4 + 16 * |n.shape.ps|
              && ToGeoJson(n) == Some(Geom(LineString, List(PositionList(n.shape.ps))))
    ensures n.shape.PolygonShape? ==> n.code == 3 || n.code == 2003
    ensures n.shape.PartsShape? ==> 4 <= n.code <= 7 || 2004 <= n.code <= 2007
  {
    hide PutPosition, PutU32, PutPositions;
  }

  lemma SridLine(n: Node, srid: nat)
    requires WellFormed(n) && n.shape.LineShape? && srid < U32_LIMIT
    ensures var buf := WithSrid(n, srid);
            && |buf| == 13 + 16 * |n.shape.ps|
            && Decode(buf) == if srid <= |n.shape.ps|
                              then Some(Geom(LineString, List(PositionList(PositionsAt(buf, 9, n.Le(), srid)))))
                              else None
  {
    hide *;
    var buf := WithSrid(n, srid);
    SridHeld(n, srid);
    BodySize(n);
    ReadLine(buf, 5, n.Le(), n.code, srid);
    PositionsRead(buf, 9, n.Le(), srid, []);
    if srid <= |n.shape.ps| {
      var list := PositionList(PositionsAt(buf, 9, n.Le(), srid));
      assert [] + list == list;
    }
  }

  lemma SridLineSame(n: Node, srid: nat)
    requires WellFormed(n) && n.shape.LineShape? && srid < U32_LIMIT
    requires srid == |n.shape.ps| && |WithSrid(n, srid)| == 13 + 16 * srid
    ensures PositionList(PositionsAt(WithSrid(n, srid), 9, n.Le(), srid)) == PositionList(n.shape.ps) <==>
            Repeats(PutPositions(n.shape.ps, n.Le()), PutU32(srid, n.Le()))
  {
    hide *;
    var ps, qs := n.shape.ps, PositionsAt(WithSrid(n, srid), 9, n.Le(), srid);
    SridShift(n, srid);
    ShiftedSame(PutU32(srid, n.Le()), PutPositions(ps, n.Le()));
    SameBytesSamePositions(ps, qs, n.Le());
    if PositionList(qs) == PositionList(ps) { ListDetermines(qs, ps); }
  }

  lemma PositionListLength(ps: seq<Position>)
    ensures |PositionList(ps)| == |ps|
  {
  }

  /** With the right count in its place, what follows it is the count and the points. */
  lemma SridShift(n: Node, srid: nat)
    requires WellFormed(n) && n.shape.LineShape? && srid == |n.shape.ps|
    ensures var buf, b := WithSrid(n, srid), PutPositions(n.shape.ps, n.Le());
            9 + |b| <= |buf| && buf[9..9 + |b|] == (PutU32(srid, n.Le()) + b)[..|b|]
  {
    hide PutU32, PutPositions, Holds, WithSrid, Decode, ReadGeometry;
    var buf, w := WithSrid(n, srid), PutU32(srid, n.Le());
    SridHeld(n, srid);
    HoldsSplit(buf, 5, w, Body(n));
    PrefixHeld(buf, 9, Body(n), 16 * srid);
  }

  /** In a polygon it is read as the number of rings; it decodes to itself if and only
      if it is that number and all that follows the count repeats the SRID's bytes. */
  lemma SridOnPolygon(n: Node, srid: nat)
    requires WellFormed(n) && n.shape.PolygonShape? && srid < U32_LIMIT
    ensures Decode(WithSrid(n, srid)) == ToGeoJson(n) <==>
            srid == |n.shape.rings| && Repeats(PutRings(n.shape.rings, n.Le()), PutU32(srid, n.Le()))
  {
    hide *;
    var buf, rings := WithSrid(n, srid), n.shape.rings;
    PolygonParts(n);
    SridPolygon(n, srid);
    var r := ReadRings(buf, 9, n.Le(), srid, []);
    SamePolygon(r, RingList(rings));
    RingsCounted(buf, 9, n.Le(), srid, []);
    RingListLength(rings);
    if srid == |rings| { SridPolygonSame(n, srid); }
  }

  lemma SridPolygon(n: Node, srid: nat)
    requires WellFormed(n) && n.shape.PolygonShape? && srid < U32_LIMIT
    ensures |WithSrid(n, srid)| >= 9
    ensures Decode(WithSrid(n, srid)) == PolygonOf(ReadRings(WithSrid(n, srid), 9, n.Le(), srid, []))
  {
    hide *;
    PolygonParts(n);
    SridHeld(n, srid);
    ReadPolygon(WithSrid(n, srid), 5, n.Le(), n.code, srid);
    PolygonIs(ReadRings(WithSrid(n, srid), 9, n.Le(), srid, []));
  }

  function PolygonOf(r: Read<seq<Coords>>): Option<Geometry> {
    if r.Fail? then None else Some(Geom(Polygon, List(r.value)))
  }

  lemma PolygonIs(r: Read<seq<Coords>>)
    ensures PolygonOf(r) == if r.Fail? then None else Some(Geom(Polygon, List(r.value)))
  {
  }

  lemma SamePolygon(r: Read<seq<Coords>>, list: seq<Coords>)
    ensures PolygonOf(r) == Some(Geom(Polygon, List(list))) <==> r.Ok? && r.value == list
  {
  }

  lemma PolygonParts(n: Node)
    requires WellFormed(n) && n.shape.PolygonShape?
    ensures n.code == 3 || n.code == 2003
    ensures Body(n) == PutU32(|n.shape.rings|, n.Le()) + PutRings(n.shape.rings, n.Le())
    ensures ToGeoJson(n) == Some(Geom(Polygon, List(RingList(n.shape.rings))))
    ensures forall r :: r in n.shape.rings ==> |r| < U32_LIMIT
  {
    hide PutU32, PutRings, RingList;
  }

  lemma RingListLength(rings: seq<seq<Position>>)
    ensures |RingList(rings)| == |rings|
  {
  }

  lemma SridPolygonSame(n: Node, srid: nat)
    requires WellFormed(n) && n.shape.PolygonShape? && srid < U32_LIMIT && srid == |n.shape.rings|
    ensures |WithSrid(n, srid)| >= 9
    ensures var r := ReadRings(WithSrid(n, srid), 9, n.Le(), srid, []);
            r.Ok? && r.value == RingList(n.shape.rings) <==>
            Repeats(PutRings(n.shape.rings, n.Le()), PutU32(srid, n.Le()))
  {
    PolygonParts(n);
    hide *;
    var buf, w, rings := WithSrid(n, srid), PutU32(srid, n.Le()), n.shape.rings;
    var rest := PutRings(rings, n.Le());
    SridHeld(n, srid);
    HoldsSplit(buf, 5, w, Body(n));
    PrefixHeld(buf, 9, w + rest, |rest|);
    RingsWhole(rings, n.Le());
    ShiftedSame(w, rest);
    HoldsIff(buf, 9, rest);
    assert [] + RingList(rings) == RingList(rings);
    if Holds(buf, 9, rest) { RingsHeld(buf, 9, rings, n.Le(), []); }
    var r := ReadRings(buf, 9, n.Le(), srid, []);
    if r.Ok? && r.value == RingList(rings) { RingsRead(buf, 9, rings, n.Le(), []); }
  }

  lemma HoldsIff(view: seq<Byte>, off: nat, part: seq<Byte>)
    requires Fits(view, off, |part|)
    ensures Holds(view, off, part) <==> view[off..off + |part|] == part
  {
  }

  lemma {:induction false} RingsWhole(rings: seq<seq<Position>>, le: bool)
    requires forall r :: r in rings ==> |r| < U32_LIMIT
    ensures |PutRings(rings, le)| % 4 == 0
  {
    hide PutU32, PutPositions;
    if rings != [] {
      RingsWhole(rings[1..], le);
      var n, rest := |rings[0]|, PutRings(rings[1..], le);
      assert |PutRings(rings, le)| == 4 + 16 * n + |rest|;
      FourMore(n, |rest|);
    }
  }

  lemma FourMore(n: nat, k: nat)
    requires k % 4 == 0
    ensures (4 + 16 * n + k) % 4 == 0
  {
  }

  /** Rings that are read were written there. */
  lemma {:induction false} RingsRead(view: seq<Byte>, off: nat, rings: seq<seq<Position>>, le: bool, acc: seq<Coords>)
    requires off <= |view| && forall r :: r in rings ==> |r| < U32_LIMIT
    requires var r := ReadRings(view, off, le, |rings|, acc); r.Ok? && r.value == acc + RingList(rings)
    ensures Holds(view, off, PutRings(rings, le))
    decreases |rings|
  {
    hide Holds, PutU32, U32At, ReadPositions, PutPositions, PositionList, RingList, PositionsAt;
    if rings == [] {
      NothingHeld(view, off);
    } else {
      var count := U32At(view, off, le);
      PositionsRead(view, off + 4, le, count, []);
      var qs := PositionsAt(view, off + 4, le, count);
      var next, ring := off + 4 + 16 * count, List([] + PositionList(qs));
      RingsExtend(view, next, le, |rings| - 1, acc + [ring]);
      FirstRing(rings, acc, ring, ReadRings(view, next, le, |rings| - 1, acc + [ring]).value);
      assert [] + PositionList(qs) == PositionList(qs);
      ListDetermines(rings[0], qs);
      RingsRead(view, next, rings[1..], le, acc + [ring]);
      RingBytes(view, off, qs, le);
      HoldsJoin(view, off, PutU32(|qs|, le) + PutPositions(qs, le), PutRings(rings[1..], le));
    }
  }

  lemma NothingHeld(view: seq<Byte>, off: nat)
    requires off <= |view|
    ensures Holds(view, off, [])
  {
  }

  lemma RingBytes(view: seq<Byte>, off: nat, qs: seq<Position>, le: bool)
    requires Fits(view, off, 4 + 16 * |qs|) && U32At(view, off, le) == |qs| < U32_LIMIT
    requires PutPositions(qs, le) == view[off + 4..off + 4 + 16 * |qs|]
    ensures Holds(view, off, PutU32(|qs|, le) + PutPositions(qs, le))
  {
    U32Inverse(view[off..off + 4], le);
    hide PutU32, PutPositions, U32;
    HoldsJoin(view, off, PutU32(|qs|, le), PutPositions(qs, le));
  }

  /** What is read comes after what had been read. */
  lemma {:induction false} RingsExtend(view: seq<Byte>, off: nat, le: bool, n: nat, acc: seq<Coords>)
    requires off <= |view|
    ensures var r := ReadRings(view, off, le, n, acc); r.Ok? ==> acc <= r.value
    decreases n
  {
    hide ReadPositions, U32At;
    if n > 0 && Fits(view, off, 4) {
      var ring := ReadPositions(view, off + 4, le, U32At(view, off, le), []);
      if ring.Ok? {
        RingsExtend(view, ring.offset, le, n - 1, acc + [List(ring.value)]);
      }
    }
  }

  lemma FirstRing(rings: seq<seq<Position>>, acc: seq<Coords>, ring: Coords, all: seq<Coords>)
    requires rings != [] && all == acc + RingList(rings) && acc + [ring] <= all
    ensures ring == List(PositionList(rings[0])) && all == acc + [ring] + RingList(rings[1..])
  {
    hide PositionList;
    assert all[|acc|] == RingList(rings)[0];
    assert (acc + [ring])[|acc|] == ring;
    RingListCons(rings, acc);
  }

  /** And so in every type with a count: a polygon gets SRID many rings, a Multi*
      geometry or collection at most SRID many parts, parts of unknown type not counted.
      A geometry with fewer bytes than that many rings or parts take does not decode. */
  lemma SridOnCounted(n: Node, srid: nat)
    requires WellFormed(n) && srid < U32_LIMIT && (n.shape.PolygonShape? || n.shape.PartsShape?)
    ensures var r := Decode(WithSrid(n, srid));
            r.Some? ==>
              if n.shape.PolygonShape? then
                r.value.Geom? && r.value.kind == Polygon && r.value.coords.List? && |r.value.coords.items| == srid
              else if n.code % 1000 == 7 then r.value.Collection? && |r.value.geometries| <= srid
              else
                && r.value.Geom? && r.value.kind == MultiKind(n.code % 1000)
                && r.value.coords.List? && |r.value.coords.items| <= srid
    ensures Decode(WithSrid(n, srid)).Some? ==>
              9 + (if n.shape.PolygonShape? then 4 else 5) * srid <= |WithSrid(n, srid)|
  {
    hide *;
    var buf := WithSrid(n, srid);
    SridHeld(n, srid);
    BodySize(n);
    if n.shape.PolygonShape? {
      ReadPolygon(buf, 5, n.Le(), n.code, srid);
      RingsCounted(buf, 9, n.Le(), srid, []);
    } else {
      ReadParts(buf, 5, n.Le(), n.code, srid);
      var r := ReadItems(buf, 9, srid, []);
      ItemsCounted(buf, 9, srid, []);
      if r.Ok? { AssembledCount(n.code % 1000, r.value); }
    }
  }

  lemma AssembledCount(code: nat, gs: seq<Geometry>)
    requires 4 <= code <= 7
    ensures var g := Assemble(code, gs);
            if code == 7 then g == Collection(gs)
            else g.Geom? && g.kind == MultiKind(code) && g.coords.List? && |g.coords.items| == |gs|
  {
  }

  lemma {:induction false} RingsCounted(view: seq<Byte>, off: nat, le: bool, n: nat, acc: seq<Coords>)
    requires off <= |view|
    ensures var r := ReadRings(view, off, le, n, acc); r.Ok? ==> |r.value| == |acc| + n
    decreases n
  {
    hide ReadPositions, U32At;
    if n > 0 && Fits(view, off, 4) {
      var ring := ReadPositions(view, off + 4, le, U32At(view, off, le), []);
      if ring.Ok? {
        RingsCounted(view, ring.offset, le, n - 1, acc + [List(ring.value)]);
      }
    }
  }

  lemma {:induction false} ItemsCounted(view: seq<Byte>, off: nat, n: nat, acc: seq<Geometry>)
    requires off <= |view|
    ensures var r := ReadItems(view, off, n, acc); r.Ok? ==> |r.value| <= |acc| + n
    decreases n
  {
    hide ReadGeometry, U32At;
    if n > 0 && Fits(view, off, 5) {
      var le := view[off] == 1;
      var res := ReadGeometry(view, off + 5, le, U32At(view, off + 1, le) % 65536);
      if res.Ok? {
        ItemsCounted(view, res.offset, n - 1, if res.value.Some? then acc + [res.value.value] else acc);
      }
    }
  }

  // ------------------------------------------------- whatever is read was written

  /** What the reader reads at an offset is the body of a node. */
  lemma {:induction false} BodyRead(view: seq<Byte>, off: nat, mark: Byte, flags: nat, code: nat) returns (n: Node)
    requires off <= |view| && flags < 65536 && code < 65536 && ReadGeometry(view, off, mark == 1, code).Ok?
    ensures n.mark == mark && n.flags == flags && n.code == code && WellFormed(n) && Holds(view, off, Body(n))
    ensures ReadGeometry(view, off, mark == 1, code) == Ok(ToGeoJson(n), off + |Body(n)|)
    decreases |view| - off, 1
  {
    var le := mark == 1;
    if code == 1 || code == 2001 {
      n := PointRead(view, off, mark, flags, code);
    } else if code == 2 || code == 2002 {
      n := LineRead(view, off, mark, flags, code);
    } else if code == 3 || code == 2003 {
      n := PolygonRead(view, off, mark, flags, code);
    } else if 4 <= code <= 7 || 2004 <= code <= 2007 {
      hide *;
      CountRead(view, off, le, code);
      var count := U32At(view, off, le);
      ReadParts(view, off, le, code, count);
      var parts := ItemsRead(view, off + 4, count, []);
      n := Node(mark, flags, code, PartsShape(parts));
      PartsGiven(n);
      assert [] + PartList(parts) == PartList(parts);
      CountWritten(view, off, le, PutParts(parts));
    } else {
      n := Node(mark, flags, code, NoShape);
      ReadNothing(view, off, le, code);
      NothingHeld(view, off);
    }
  }

  lemma PartsGiven(n: Node)
    requires n.flags < 65536 && n.code < 65536 && (4 <= n.code <= 7 || 2004 <= n.code <= 2007)
    requires n.shape.PartsShape? && |n.shape.parts| < U32_LIMIT && forall m :: m in n.shape.parts ==> WellFormed(m)
    ensures n.Le() == (n.mark == 1) && WellFormed(n)
    ensures Body(n) == PutU32(|n.shape.parts|, n.Le()) + PutParts(n.shape.parts)
    ensures ToGeoJson(n) == Some(Assemble(n.code % 1000, PartList(n.shape.parts)))
  {
    assert WellFormed(n);
    hide *;
    PartsOf(n, n.shape.parts);
  }

  lemma CountRead(view: seq<Byte>, off: nat, le: bool, code: nat)
    requires off <= |view| && (2 <= code <= 7 || 2002 <= code <= 2007) && ReadGeometry(view, off, le, code).Ok?
    ensures Fits(view, off, 4) && U32At(view, off, le) < U32_LIMIT
  {
    hide ReadPositions, ReadRings, ReadItems, Assemble;
  }

  lemma CountWritten(view: seq<Byte>, off: nat, le: bool, rest: seq<Byte>)
    requires Fits(view, off, 4) && Holds(view, off + 4, rest)
    ensures U32At(view, off, le) < U32_LIMIT && Holds(view, off, PutU32(U32At(view, off, le), le) + rest)
  {
    U32Inverse(view[off..off + 4], le);
    hide PutU32, U32;
    HoldsJoin(view, off, PutU32(U32At(view, off, le), le), rest);
  }

  lemma PointRead(view: seq<Byte>, off: nat, mark: Byte, flags: nat, code: nat) returns (n: Node)
    requires off <= |view| && flags < 65536 && (code == 1 || code == 2001)
    requires ReadGeometry(view, off, mark == 1, code).Ok?
    ensures n.mark == mark && n.flags == flags && n.code == code && WellFormed(n) && Holds(view, off, Body(n))
    ensures ReadGeometry(view, off, mark == 1, code) == Ok(ToGeoJson(n), off + |Body(n)|)
  {
    assert Fits(view, off, 16);
    hide PutPosition, PositionAt, ReadGeometry;
    n := Node(mark, flags, code, PointShape(PositionAt(view, off, mark == 1)));
    PositionWritten(view, off, mark == 1);
    ReadPoint(view, off, mark == 1, code);
  }

  lemma LineRead(view: seq<Byte>, off: nat, mark: Byte, flags: nat, code: nat) returns (n: Node)
    requires off <= |view| && flags < 65536 && (code == 2 || code == 2002)
    requires ReadGeometry(view, off, mark == 1, code).Ok?
    ensures n.mark == mark && n.flags == flags && n.code == code && WellFormed(n) && Holds(view, off, Body(n))
    ensures ReadGeometry(view, off, mark == 1, code) == Ok(ToGeoJson(n), off + |Body(n)|)
  {
    hide *;
    var le := mark == 1;
    CountRead(view, off, le, code);
    var count := U32At(view, off, le);
    ReadLine(view, off, le, code, count);
    PositionsRead(view, off + 4, le, count, []);
    var ps := PositionsAt(view, off + 4, le, count);
    n := Node(mark, flags, code, LineShape(ps));
    LineParts(n);
    assert [] + PositionList(ps) == PositionList(ps);
    HoldsIff(view, off + 4, PutPositions(ps, le));
    CountWritten(view, off, le, PutPositions(ps, le));
  }

  lemma LineParts(n: Node)
    requires n.shape.LineShape? && n.flags < 65536 && (n.code == 2 || n.code == 2002) && |n.shape.ps| < U32_LIMIT
    ensures n.Le() == (n.mark == 1) && WellFormed(n)
    ensures Body(n) == PutU32(|n.shape.ps|, n.Le()) + PutPositions(n.shape.ps, n.Le())
    ensures ToGeoJson(n) == Some(Geom(LineString, List(PositionList(n.shape.ps))))
  {
    hide PutU32, PutPositions, PositionList;
  }

  lemma PolygonRead(view: seq<Byte>, off: nat, mark: Byte, flags: nat, code: nat) returns (n: Node)
    requires off <= |view| && flags < 65536 && (code == 3 || code == 2003)
    requires ReadGeometry(view, off, mark == 1, code).Ok?
    ensures n.mark == mark && n.flags == flags && n.code == code && WellFormed(n) && Holds(view, off, Body(n))
    ensures ReadGeometry(view, off, mark == 1, code) == Ok(ToGeoJson(n), off + |Body(n)|)
  {
    hide *;
    var le := mark == 1;
    CountRead(view, off, le, code);
    var count := U32At(view, off, le);
    ReadPolygon(view, off, le, code, count);
    var rings := RingsAt(view, off + 4, le, count, []);
    n := Node(mark, flags, code, PolygonShape(rings));
    PolygonRings(n);
    assert [] + RingList(rings) == RingList(rings);
    CountWritten(view, off, le, PutRings(rings, le));
  }

  lemma PolygonRings(n: Node)
    requires n.shape.PolygonShape? && n.flags < 65536 && (n.code == 3 || n.code == 2003)
    requires |n.shape.rings| < U32_LIMIT && forall r :: r in n.shape.rings ==> |r| < U32_LIMIT
    ensures n.Le() == (n.mark == 1) && WellFormed(n)
    ensures Body(n) == PutU32(|n.shape.rings|, n.Le()) + PutRings(n.shape.rings, n.Le())
    ensures ToGeoJson(n) == Some(Geom(Polygon, List(RingList(n.shape.rings))))
  {
    hide PutU32, PutRings, RingList;
  }

  lemma {:induction false} RingsAt(view: seq<Byte>, off: nat, le: bool, n: nat, acc: seq<Coords>)
    returns (rings: seq<seq<Position>>)
    requires off <= |view| && ReadRings(view, off, le, n, acc).Ok?
    ensures |rings| == n && forall r :: r in rings ==> |r| < U32_LIMIT
    ensures Holds(view, off, PutRings(rings, le))
    ensures ReadRings(view, off, le, n, acc) == Ok(acc + RingList(rings), off + |PutRings(rings, le)|)
    decreases n
  {
    hide Holds, PutU32, U32At, ReadPositions, PutPositions, PositionList, PositionsAt;
    if n == 0 {
      rings := [];
      NothingHeld(view, off);
      assert acc + RingList([]) == acc;
    } else {
      var count := U32At(view, off, le);
      PositionsRead(view, off + 4, le, count, []);
      var r := PositionsAt(view, off + 4, le, count);
      assert [] + PositionList(r) == PositionList(r);
      var rest := RingsAt(view, off + 4 + 16 * count, le, n - 1, acc + [List(PositionList(r))]);
      rings := [r] + rest;
      WordSmall(view, off, le);
      RingBytes(view, off, r, le);
      hide RingList;
      RingsTogether(view, off, rings, le, acc);
    }
  }

  lemma RingsTogether(view: seq<Byte>, off: nat, rings: seq<seq<Position>>, le: bool, acc: seq<Coords>)
    requires rings != [] && forall r :: r in rings ==> |r| < U32_LIMIT
    requires var first := PutU32(|rings[0]|, le) + PutPositions(rings[0], le);
             Holds(view, off, first) && Holds(view, off + |first|, PutRings(rings[1..], le))
    ensures Holds(view, off, PutRings(rings, le))
    ensures |PutRings(rings, le)| == 4 + 16 * |rings[0]| + |PutRings(rings[1..], le)|
    ensures acc + [List(PositionList(rings[0]))] + RingList(rings[1..]) == acc + RingList(rings)
  {
    hide Holds, PutU32, PutPositions;
    HoldsJoin(view, off, PutU32(|rings[0]|, le) + PutPositions(rings[0], le), PutRings(rings[1..], le));
    RingListCons(rings, acc);
  }

  lemma {:induction false} ItemsRead(view: seq<Byte>, off: nat, n: nat, acc: seq<Geometry>)
    returns (parts: seq<Node>)
    requires off <= |view| && ReadItems(view, off, n, acc).Ok?
    ensures |parts| == n && forall m :: m in parts ==> WellFormed(m)
    ensures Holds(view, off, PutParts(parts))
    ensures ReadItems(view, off, n, acc) == Ok(acc + PartList(parts), off + |PutParts(parts)|)
    decreases |view| - off, 0
  {
    hide ReadGeometry, U32At, Holds, Present, WellFormed, Encode, Body, ToGeoJson;
    if n == 0 {
      parts := [];
      NothingHeld(view, off);
      assert acc + PartList([]) == acc;
    } else {
      var mark, word := view[off], U32At(view, off + 1, view[off] == 1);
      WordSmall(view, off + 1, mark == 1);
      WordParts(word);
      var m := BodyRead(view, off + 5, mark, word / 65536, word % 65536);
      EncodingRead(view, off, m);
      var next := off + |Encode(m)|;
      PresentAdded(acc, ToGeoJson(m));
      var rest := ItemsRead(view, next, n - 1, acc + Present(ToGeoJson(m)));
      parts := [m] + rest;
      assert parts[1..] == rest;
      HoldsJoin(view, off, Encode(m), PutParts(rest));
      PartListCons(parts, acc);
    }
  }

  lemma PresentAdded(acc: seq<Geometry>, g: Option<Geometry>)
    ensures acc + Present(g) == if g.Some? then acc + [g.value] else acc
  {
  }

  lemma WordSmall(view: seq<Byte>, off: nat, le: bool)
    requires Fits(view, off, 4)
    ensures U32At(view, off, le) < U32_LIMIT
  {
  }

  lemma WordParts(word: nat)
    requires word < U32_LIMIT
    ensures word / 65536 < 65536 && word == word / 65536 * 65536 + word % 65536
  {
  }

  lemma EncodingRead(view: seq<Byte>, off: nat, n: Node)
    requires Fits(view, off, 5) && n.mark == view[off] && WellFormed(n)
    requires U32At(view, off + 1, n.Le()) == n.flags * 65536 + n.code
    requires Holds(view, off + 5, Body(n))
    ensures Holds(view, off, Encode(n)) && |Encode(n)| == 5 + |Body(n)|
  {
    U32Inverse(view[off + 1..off + 5], n.Le());
    assert Holds(view, off, [n.mark]);
    hide PutU32, U32, Body, WellFormed;
    HoldsJoin(view, off, [n.mark], PutU32(TypeWord(n), n.Le()));
    HoldsJoin(view, off, Header(n), Body(n));
  }

  /** `buf` starts with the encoding of `n`. */
  ghost predicate StartsWith(buf: seq<Byte>, n: Node) {
    WellFormed(n) && Holds(buf, 0, Encode(n))
  }

  /** The decoder finds a geometry if and only if the buffer starts with its encoding. */
  lemma DecodesIff(buf: seq<Byte>, g: Geometry)
    ensures Decode(buf) == Some(g) <==> exists n :: StartsWith(buf, n) && ToGeoJson(n) == Some(g)
  {
    hide *;
    if n :| StartsWith(buf, n) && ToGeoJson(n) == Some(g) {
      DecodeHeld(buf, n);
    }
    if Decode(buf) == Some(g) {
      var n := DecodeRead(buf);
    }
  }

  lemma DecodeRead(buf: seq<Byte>) returns (n: Node)
    requires Decode(buf).Some?
    ensures StartsWith(buf, n) && ToGeoJson(n) == Decode(buf)
  {
    hide ReadGeometry, Body, Encode, ToGeoJson, WellFormed, U32At;
    WordSmall(buf, 1, buf[0] == 1);
    var word := U32At(buf, 1, buf[0] == 1);
    WordParts(word);
    n := BodyRead(buf, 5, buf[0], word / 65536, word % 65536);
    EncodingRead(buf, 0, n);
  }

  lemma DecodeHeld(buf: seq<Byte>, n: Node)
    requires StartsWith(buf, n)
    ensures Decode(buf) == ToGeoJson(n)
  {
    HoldsSplit(buf, 0, Header(n), Body(n));
    hide ReadGeometry, Body, ToGeoJson, Header, U32At, Holds;
    DecodeBody(buf, n);
    BodyHeld(buf, 5, n);
  }

  /** Buffers too short for a header give nothing, and neither do unknown types. */
  lemma UnknownIsNothing(buf: seq<Byte>)
    ensures |buf| < 5 ==> Decode(buf) == None
    ensures |buf| >= 5 ==>
              var b1: int, b2: int, b3: int, b4: int := buf[1], buf[2], buf[3], buf[4];
              var code := if buf[0] == 1 then b1 + 256 * b2 else b4 + 256 * b3;
              !(1 <= code <= 7 || 2001 <= code <= 2007) ==> Decode(buf) == None
  {
    if |buf| >= 5 {
      var le := buf[0] == 1;
      var code := U32At(buf, 1, le) % 65536;
      LowHalf(buf[1], buf[2], buf[3], buf[4], le);
      assert buf[1..5] == [buf[1], buf[2], buf[3], buf[4]];
      hide U32, ReadGeometry;
      if !(1 <= code <= 7 || 2001 <= code <= 2007) { ReadNothing(buf, 5, le, code); }
    }
  }

  lemma LowHalf(b0: Byte, b1: Byte, b2: Byte, b3: Byte, le: bool)
    ensures var n0: int, n1: int, n2: int, n3: int := b0, b1, b2, b3;
            U32([b0, b1, b2, b3], le) % 65536 == if le then n0 + 256 * n1 else n3 + 256 * n2
  {
    if le { LowOfSum(b0, b1, b2, b3); } else { LowOfSum(b3, b2, b1, b0); }
  }

  lemma LowOfSum(b0: int, b1: int, b2: int, b3: int)
    requires 0 <= b0 < 256 && 0 <= b1 < 256
    ensures (b0 + 256 * b1 + 65536 * b2 + 16777216 * b3) % 65536 == b0 + 256 * b1
  {
    assert b0 + 256 * b1 + 65536 * b2 + 16777216 * b3 == b0 + 256 * b1 + 65536 * (b2 + 256 * b3);
  }

  /** The bytes of a little-endian collection with, in this order, a big-endian
      polygon of one ring, a Point Z, which the decoder does not know, and a little-endian
      line string; and what is decoded from them. */
  lemma SampleDecoded(a: Float64, b: Float64, c: Float64, d: Float64)
    ensures var polygon := [0, 0, 0, 0, 3] + ([0, 0, 0, 1] + ([0, 0, 0, 1] + (a + b)));
            var points := Reverse(a) + Reverse(b) + (Reverse(c) + Reverse(d));
            var line := [1, 2, 0, 0, 0] + ([2, 0, 0, 0] + points);
            Decode([1, 7, 0, 0, 0] + ([3, 0, 0, 0] + (polygon + ([1, 233, 3, 0, 0] + line))))
            == Some(Collection([Geom(Polygon, List([List([Pos(Position(a, b))])])),
                                Geom(LineString, List([Pos(Position(a, b)), Pos(Position(c, d))]))]))
  {
    var p, q := Position(a, b), Position(c, d);
    var polygon, line := Node(0, 0, 3, PolygonShape([[p]])), Node(1, 0, 2, LineShape([p, q]));
    var z := Node(1, 0, 1001, NoShape);
    var n := Node(1, 0, 7, PartsShape([polygon, z, line]));
    SamplePolygon(p);
    SampleLine(p, q);
    SampleUnknown();
    SampleCollection([polygon, z, line]);
    ThreeParts(polygon, z, line);
    RoundTrip(n);
    SamplePresent(ToGeoJson(polygon).value, ToGeoJson(line).value);
    hide *;
  }

  lemma SamplePresent(g: Geometry, h: Geometry)
    ensures Present(Some(g)) + (Present(None) + Present(Some(h))) == [g, h]
  {
  }

  lemma SampleUnknown()
    ensures var z := Node(1, 0, 1001, NoShape);
            WellFormed(z) && Encode(z) == [1, 233, 3, 0, 0] && ToGeoJson(z) == None
  {
  }

  lemma SampleCollection(parts: seq<Node>)
    requires |parts| == 3 && forall m :: m in parts ==> WellFormed(m)
    ensures var n := Node(1, 0, 7, PartsShape(parts));
            && WellFormed(n) && Encode(n) == [1, 7, 0, 0, 0] + ([3, 0, 0, 0] + PutParts(parts))
            && ToGeoJson(n) == Some(Collection(PartList(parts)))
  {
    hide Header, Body, Encode, ToGeoJson, WellFormed, PutParts, PartList, PutU32, Assemble;
    var n := Node(1, 0, 7, PartsShape(parts));
    PartsGiven(n);
    SampleHeader(n);
    HeaderThenBody(n);
    AssembledCount(7, PartList(parts));
  }

  lemma HeaderThenBody(n: Node)
    requires WellFormed(n)
    ensures Encode(n) == Header(n) + Body(n)
  {
  }

  lemma SampleHeader(n: Node)
    requires n.mark == 1 && n.flags == 0 && n.code == 7
    ensures Header(n) == [1, 7, 0, 0, 0] && PutU32(3, true) == [3, 0, 0, 0]
  {
  }

  lemma SamplePolygon(p: Position)
    ensures var n := Node(0, 0, 3, PolygonShape([[p]]));
            && WellFormed(n) && Encode(n) == [0, 0, 0, 0, 3] + ([0, 0, 0, 1] + ([0, 0, 0, 1] + (p.x + p.y)))
            && ToGeoJson(n) == Some(Geom(Polygon, List([List([Pos(p)])])))
  {
    var n := Node(0, 0, 3, PolygonShape([[p]]));
    assert Header(n) == [0, 0, 0, 0, 3] && PutU32(1, false) == [0, 0, 0, 1];
    hide Header, PutU32;
    assert PutPositions([p], false) == p.x + p.y;
    hide PutPositions;
    OneRing([p], false);
    assert PositionList([p]) == [Pos(p)];
    hide PutRings, RingList;
  }

  lemma OneRing(ring: seq<Position>, le: bool)
    requires |ring| < U32_LIMIT
    ensures PutRings([ring], le) == PutU32(|ring|, le) + PutPositions(ring, le)
    ensures RingList([ring]) == [List(PositionList(ring))]
  {
    hide PutU32, PutPositions, PositionList;
    assert [ring][1..] == [];
  }

  lemma SampleLine(p: Position, q: Position)
    ensures var n := Node(1, 0, 2, LineShape([p, q]));
            && WellFormed(n)
            && Encode(n) == [1, 2, 0, 0, 0]
                            + ([2, 0, 0, 0] + (Reverse(p.x) + Reverse(p.y) + (Reverse(q.x) + Reverse(q.y))))
            && ToGeoJson(n) == Some(Geom(LineString, List([Pos(p), Pos(q)])))
  {
    var n := Node(1, 0, 2, LineShape([p, q]));
    assert Header(n) == [1, 2, 0, 0, 0] && PutU32(2, true) == [2, 0, 0, 0];
    hide Header, PutU32, Reverse;
    TwoPositions(p, q, true);
    assert PositionList([p, q]) == [Pos(p), Pos(q)];
    hide PutPositions, PositionList;
  }

  lemma TwoPositions(p: Position, q: Position, le: bool)
    ensures PutPositions([p, q], le) == PutPosition(p, le) + PutPosition(q, le)
  {
    hide PutPosition;
    assert [p, q][1..] == [q] && [q][1..] == [];
    assert PutPositions([q], le) == PutPosition(q, le) + [];
  }

  lemma ThreeParts(a: Node, z: Node, b: Node)
    requires WellFormed(a) && WellFormed(z) && WellFormed(b)
    ensures PutParts([a, z, b]) == Encode(a) + (Encode(z) + Encode(b))
    ensures PartList([a, z, b]) == Present(ToGeoJson(a)) + (Present(ToGeoJson(z)) + Present(ToGeoJson(b)))
  {
    hide Encode, ToGeoJson, WellFormed;
    assert [a, z, b][1..] == [z, b] && [z, b][1..] == [b] && [b][1..] == [];
    assert PutParts([b]) == Encode(b) + [] == Encode(b);
    assert PartList([b]) == Present(ToGeoJson(b)) + [] == Present(ToGeoJson(b));
  }

  /** A part of unknown type adds nothing to the parts read. */
  lemma {:induction false} UnknownPartSkipped(before: seq<Node>, part: Node, after: seq<Node>)
    requires part.shape.NoShape?
    ensures PartList(before + [part] + after) == PartList(before + after)
  {
    if before == [] {
      assert before + [part] + after == [part] + after && before + after == after;
      assert ([part] + after)[1..] == after;
    } else {
      UnknownPartSkipped(before[1..], part, after);
      assert (before + [part] + after)[1..] == before[1..] + [part] + after;
      assert (before + after)[1..] == before[1..] + after;
    }
  }

  /** Nodes with the same encoding stand for the same geometry. */
  lemma EncodingDeterminesGeometry(m: Node, n: Node)
    requires WellFormed(m) && WellFormed(n) && Encode(m) == Encode(n)
    ensures ToGeoJson(m) == ToGeoJson(n)
  {
    RoundTrip(m);
    RoundTrip(n);
  }
}
