/**
 * From one message record to a graphic, as GraphicsOverlayDictionaryRenderer::
 * createGraphic does it: pick the spatial reference, decode `_control_points`
 * into a point or a multipoint, and, when that geometry is not empty, keep the
 * remaining fields as the graphic's attributes.
 *
 * Coordinates stay as the ','-separated token strings the source hands to
 * QString::toDouble; the integer parse of `_wkid` (QVariant::toInt) is the
 * parameter `toInt`.
 */
module Graphics {
  import opened Text
  import opened Wrappers
  import opened MessageScan

  const FieldControlPoints: string := "_control_points"
  const FieldWkid: string := "_wkid"
  /** WGS 1984, used when a message has no `_wkid`. */
  const DefaultWkid: int := 4326
  const PointSeparator: char := ';'
  const CoordSeparator: char := ','

  /** The first two ','-tokens of one control point, before numeric parsing. */
  datatype Coord = Coord(x: string, y: string)

  /** `Empty` is a default-constructed Geometry; a multipoint with no points is empty too. */
  datatype Geometry =
    | Empty
    | Point(wkid: int, at: Coord)
    | Multipoint(wkid: int, points: seq<Coord>)
  {
    predicate IsEmpty() {
      Empty? || (Multipoint? && points == [])
    }
  }

  datatype Graphic = Graphic(geometry: Geometry, attributes: Record)

  /** The two fields that carry the geometry and never become attributes. */
  const Reserved: set<string> := {FieldControlPoints, FieldWkid}

  /** What every graphic placed on the overlay looks like. */
  predicate WellFormed(g: Graphic) {
    !g.geometry.IsEmpty() && Reserved !! g.attributes.Keys
  }

  /** The spatial reference: the parsed `_wkid` when the field is there, 4326 otherwise. */
  function WkidOf(rec: Record, toInt: string -> int): (w: int)
    ensures FieldWkid !in rec ==> w == DefaultWkid
    ensures FieldWkid in rec ==> w == toInt(rec[FieldWkid])
  {
    if FieldWkid in rec then toInt(rec[FieldWkid]) else DefaultWkid
  }

  /** The control-point text; a missing field reads as the empty string
      (an invalid QVariant converts to an empty QString). */
  function ControlPointsText(rec: Record): (t: string)
    ensures FieldControlPoints !in rec ==> t == []
    ensures FieldControlPoints in rec ==> t == rec[FieldControlPoints]
  {
    if FieldControlPoints in rec then rec[FieldControlPoints] else ""
  }

  /** The ';'-separated parts of the control-point text. */
  function PointStrings(rec: Record): (parts: seq<string>)
    ensures |parts| >= 1
  {
    Split(ControlPointsText(rec), PointSeparator)
  }

  /** Whether a part has at least two ','-tokens, and so makes a point. */
  predicate HasPair(part: string) {
    |Split(part, CoordSeparator)| >= 2
  }

  function CoordOf(part: string): (c: Coord)
    requires HasPair(part)
    ensures Join([c.x, c.y] + Split(part, CoordSeparator)[2..], CoordSeparator) == part
  {
    var coords := Split(part, CoordSeparator);
    JoinSplit(part, CoordSeparator);
    assert coords == [coords[0], coords[1]] + coords[2..];
    Coord(coords[0], coords[1])
  }

  /** The points of a multipoint: one per part with at least two tokens, in order. */
  function PointsOf(parts: seq<string>): (points: seq<Coord>)
    ensures |points| <= |parts|
    decreases |parts|
  {
    if parts == [] then []
    else (if HasPair(parts[0]) then [CoordOf(parts[0])] else []) + PointsOf(parts[1..])
  }

  /** The points of consecutive parts follow one another: order is kept. */
  lemma {:induction false} PointsOfAppend(a: seq<string>, b: seq<string>)
    ensures PointsOf(a + b) == PointsOf(a) + PointsOf(b)
    decreases |a|
  {
    if a != [] {
      PointsOfAppend(a[1..], b);
      assert (a + b)[1..] == a[1..] + b;
    } else {
      assert a + b == b;
    }
  }

  /** No points survive exactly when no part has two tokens. */
  lemma {:induction false} PointsOfNone(parts: seq<string>)
    ensures PointsOf(parts) == [] <==> forall i :: 0 <= i < |parts| ==> !HasPair(parts[i])
    decreases |parts|
  {
    if parts != [] {
      PointsOfNone(parts[1..]);
      assert forall i :: 1 <= i < |parts| ==> parts[i] == parts[1..][i - 1];
    }
  }

  /** When every part has two tokens, the multipoint has one point per part, in input order. */
  lemma {:induction false} PointsOfAllPairs(parts: seq<string>)
    requires forall i :: 0 <= i < |parts| ==> HasPair(parts[i])
    ensures |PointsOf(parts)| == |parts|
    ensures forall i :: 0 <= i < |parts| ==> PointsOf(parts)[i] == CoordOf(parts[i])
    decreases |parts|
  {
    if parts != [] {
      PointsOfAllPairs(parts[1..]);
    }
  }

  /** The loop of createGraphic that fills the multipoint's point collection. */
  method BuildMultipoint(pointStrings: seq<string>, wkid: int) returns (g: Geometry)
    ensures g == Multipoint(wkid, PointsOf(pointStrings))
  {
    var points: seq<Coord> := [];
    for i := 0 to |pointStrings|
      invariant points == PointsOf(pointStrings[..i])
    {
      var coords := Split(pointStrings[i], CoordSeparator);
      if |coords| >= 2 {
        points := points + [Coord(coords[0], coords[1])];
      }
      PointsOfAppend(pointStrings[..i], [pointStrings[i]]);
      assert pointStrings[..i + 1] == pointStrings[..i] + [pointStrings[i]];
    }
    assert pointStrings[..|pointStrings|] == pointStrings;
    g := Multipoint(wkid, points);
  }

  /** The single-point branch reads `coords[1]` without a check, so it is only
      defined when the one part has at least two tokens. */
  predicate SinglePointReadable(rec: Record) {
    var parts := PointStrings(rec);
    |parts| == 1 ==> HasPair(parts[0])
  }

  /** The geometry as the source builds it; only defined where it reads no
      token past the end. */
  function SelectGeometryAsWritten(rec: Record, toInt: string -> int): (g: Geometry)
    requires SinglePointReadable(rec)
    ensures !g.Empty?
  {
    var wkid := WkidOf(rec, toInt);
    var parts := PointStrings(rec);
    if |parts| == 1 then Point(wkid, CoordOf(parts[0]))
    else Multipoint(wkid, PointsOf(parts))
  }

  /** A control-point text with neither separator, a missing field among
      them, leaves the single-point branch reading a second token that is not there. */
  lemma MissingPairUnreadable(rec: Record)
    requires PointSeparator !in ControlPointsText(rec) && CoordSeparator !in ControlPointsText(rec)
    ensures !SinglePointReadable(rec)
  {
    SplitNoSeparator(ControlPointsText(rec), PointSeparator);
    SplitNoSeparator(ControlPointsText(rec), CoordSeparator);
  }

  lemma NoControlPointsUnreadable(rec: Record)
    requires FieldControlPoints !in rec
    ensures !SinglePointReadable(rec)
  {
    MissingPairUnreadable(rec);
  }

  /** The geometry of a record. A single part without two tokens gives the
      empty geometry, as a multipoint without points does. */
  function SelectGeometry(rec: Record, toInt: string -> int): (g: Geometry)
    ensures SinglePointReadable(rec) ==> g == SelectGeometryAsWritten(rec, toInt)
  {
    var wkid := WkidOf(rec, toInt);
    var parts := PointStrings(rec);
    if |parts| == 1 then
      if HasPair(parts[0]) then Point(wkid, CoordOf(parts[0])) else Empty
    else Multipoint(wkid, PointsOf(parts))
  }

  /** A point exactly when there is one part and it has two tokens; a
      multipoint exactly when there are several parts; empty exactly when no
      part has two tokens. Either way in the record's spatial reference. */
  lemma SelectGeometryShape(rec: Record, toInt: string -> int)
    ensures var g := SelectGeometry(rec, toInt); var parts := PointStrings(rec);
            && (g.Point? <==> |parts| == 1 && HasPair(parts[0]))
            && (g.Point? ==> g.wkid == WkidOf(rec, toInt) && g.at == CoordOf(parts[0]))
            && (g.Multipoint? <==> |parts| >= 2)
            && (g.Multipoint? ==> g.wkid == WkidOf(rec, toInt) && g.points == PointsOf(parts))
            && (g.IsEmpty() <==> forall i :: 0 <= i < |parts| ==> !HasPair(parts[i]))
  {
    PointsOfNone(PointStrings(rec));
  }

  /** A record without usable control points, a missing field among them,
      yields the empty geometry. */
  lemma NoControlPointsEmpty(rec: Record, toInt: string -> int)
    requires PointSeparator !in ControlPointsText(rec) && CoordSeparator !in ControlPointsText(rec)
    ensures SelectGeometry(rec, toInt).IsEmpty()
  {
    SplitNoSeparator(ControlPointsText(rec), PointSeparator);
    SplitNoSeparator(ControlPointsText(rec), CoordSeparator);
  }

  /** The graphic createGraphic appends for a record, if any: the record's
      geometry with every field except the two reserved ones as attributes. */
  function GraphicFor(rec: Record, toInt: string -> int): (r: Option<Graphic>)
    ensures r.Some? ==> WellFormed(r.value)
  {
    var g := SelectGeometry(rec, toInt);
    if g.IsEmpty() then None else Some(Graphic(g, rec - Reserved))
  }

  /** A graphic exactly when the geometry is not empty; it carries that
      geometry and every field of the record but the reserved ones, unchanged. */
  lemma GraphicForFields(rec: Record, toInt: string -> int)
    ensures var r := GraphicFor(rec, toInt);
            && (r.None? <==> SelectGeometry(rec, toInt).IsEmpty())
            && (r.Some? ==> r.value.geometry == SelectGeometry(rec, toInt))
            && (r.Some? ==> r.value.attributes.Keys == rec.Keys - Reserved)
            && (r.Some? ==> forall k :: k in r.value.attributes ==> r.value.attributes[k] == rec[k])
  {
  }

  /** Splits "x,y" into its two coordinate tokens. */
  lemma SplitPair(x: string, y: string)
    requires CoordSeparator !in x && CoordSeparator !in y
    ensures Split(x + [CoordSeparator] + y, CoordSeparator) == [x, y]
  {
    SplitFirst(x, CoordSeparator, y);
    SplitNoSeparator(y, CoordSeparator);
  }

  predicate Plain(t: string) {
    PointSeparator !in t && CoordSeparator !in t
  }

  /** "x1,y1;x2,y2" without `_wkid` is a two-point multipoint in WGS 1984,
      for instance "1,2;3,4". */
  lemma TwoPointMultipoint(x1: string, y1: string, x2: string, y2: string, toInt: string -> int)
    requires Plain(x1) && Plain(y1) && Plain(x2) && Plain(y2)
    ensures var text := x1 + [CoordSeparator] + y1 + [PointSeparator] + x2 + [CoordSeparator] + y2;
            SelectGeometry(map[FieldControlPoints := text], toInt)
            == Multipoint(DefaultWkid, [Coord(x1, y1), Coord(x2, y2)])
  {
    var p1 := x1 + [CoordSeparator] + y1;
    var p2 := x2 + [CoordSeparator] + y2;
    var text := x1 + [CoordSeparator] + y1 + [PointSeparator] + x2 + [CoordSeparator] + y2;
    assert text == p1 + [PointSeparator] + p2;
    var rec := map[FieldControlPoints := text];
    assert PointStrings(rec) == [p1, p2] by {
      SplitFirst(p1, PointSeparator, p2);
      SplitNoSeparator(p2, PointSeparator);
    }
    SplitPair(x1, y1);
    SplitPair(x2, y2);
    assert PointsOf([p1, p2]) == [Coord(x1, y1), Coord(x2, y2)] by {
      PointsOfAllPairs([p1, p2]);
    }
    assert WkidOf(rec, toInt) == DefaultWkid;
  }

  /** "x,y" with `_wkid` w is a point in the spatial reference w parses to,
      for instance "10,20" with "3857". */
  lemma SinglePoint(x: string, y: string, w: string, toInt: string -> int)
    requires Plain(x) && Plain(y)
    ensures SelectGeometry(map[FieldControlPoints := x + [CoordSeparator] + y, FieldWkid := w], toInt)
            == Point(toInt(w), Coord(x, y))
  {
    var p := x + [CoordSeparator] + y;
    SplitNoSeparator(p, PointSeparator);
    SplitPair(x, y);
  }
}
