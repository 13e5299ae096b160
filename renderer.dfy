/**
 * The state of GraphicsOverlayDictionaryRenderer that parseXmlFile and
 * createGraphic change: the graphics of its overlay and the bounding
 * accumulator m_bbox.
 *
 * The SDK's extent and union operations are the parameters `extentOf` and
 * `unionOf` (the latter standing for GeometryEngine::unionOf(a, b).extent());
 * the model says when and with what they are applied, not what they compute.
 */
module Renderer {
  import opened Wrappers
  import opened Text
  import opened MessageScan
  import opened Graphics

  /** The graphics createGraphic appends for `recs`, handed on in this order. */
  function Render(recs: seq<Record>, toInt: string -> int): (gs: seq<Graphic>)
    ensures |gs| <= |recs|
    ensures forall i :: 0 <= i < |gs| ==> WellFormed(gs[i])
    decreases |recs|
  {
    if recs == [] then []
    else Render(recs[..|recs| - 1], toInt) + ToSeq(GraphicFor(recs[|recs| - 1], toInt))
  }

  /** Records that carry no usable control points add nothing. */
  lemma {:induction false} RenderNothing(recs: seq<Record>, toInt: string -> int)
    requires forall i :: 0 <= i < |recs| ==> SelectGeometry(recs[i], toInt).IsEmpty()
    ensures Render(recs, toInt) == []
    decreases |recs|
  {
    if recs != [] {
      RenderNothing(recs[..|recs| - 1], toInt);
    }
  }

  /** Records whose geometry is never empty give one graphic each, in order,
      each carrying its record's non-reserved fields. */
  lemma {:induction false} RenderEach(recs: seq<Record>, toInt: string -> int)
    requires forall i :: 0 <= i < |recs| ==> !SelectGeometry(recs[i], toInt).IsEmpty()
    ensures |Render(recs, toInt)| == |recs|
    ensures forall i :: 0 <= i < |recs| ==> Some(Render(recs, toInt)[i]) == GraphicFor(recs[i], toInt)
    decreases |recs|
  {
    if recs != [] {
      RenderEach(recs[..|recs| - 1], toInt);
    }
  }

  /** The accumulator after the graphics `gs` were appended one by one: empty
      before the first, seeded with the first one's extent, and then grown by
      union with each further extent. */
  function BBoxOf<E>(extentOf: Geometry -> E, unionOf: (E, E) -> E, gs: seq<Graphic>): (b: Option<E>)
    ensures b.None? <==> gs == []
    decreases |gs|
  {
    if gs == [] then None
    else
      var e := extentOf(gs[|gs| - 1].geometry);
      match BBoxOf(extentOf, unionOf, gs[..|gs| - 1])
      case None => Some(e)
      case Some(prev) => Some(unionOf(prev, e))
  }

  /** Two messages, the first without a usable geometry: one graphic, and
      the accumulator is that graphic's extent alone. */
  lemma SkippedThenPlaced<E>(first: Record, second: Record, toInt: string -> int,
                             extentOf: Geometry -> E, unionOf: (E, E) -> E)
    requires SelectGeometry(first, toInt).IsEmpty() && !SelectGeometry(second, toInt).IsEmpty()
    ensures |Render([first, second], toInt)| == 1
    ensures BBoxOf(extentOf, unionOf, Render([first, second], toInt)) == Some(extentOf(SelectGeometry(second, toInt)))
  {
    GraphicForFields(first, toInt);
    GraphicForFields(second, toInt);
    assert [first, second][..1] == [first];
    assert [first][..0] == [];
    assert Render([first], toInt) == [] by {
      assert Render([first][..0], toInt) == [];
    }
    var gs := Render([first, second], toInt);
    assert gs == [GraphicFor(second, toInt).value];
    assert gs[..0] == [];
  }

  /** A document gives at most one graphic for every second `message` token. */
  lemma GraphicsBound(tokens: seq<Token>, toInt: string -> int)
    ensures |Render(Scan(tokens).emitted, toInt)| <= CountMessages(tokens) / 2
  {
    ScanCounts(tokens);
  }

  /** The scanner after one more token. */
  lemma ScanSnoc(tokens: seq<Token>, i: nat)
    requires i < |tokens|
    ensures Scan(tokens[..i + 1]) == Step(Scan(tokens[..i]), tokens[i])
  {
    assert tokens[..i + 1][..i] == tokens[..i];
  }

  /** One more record adds its graphic, if it has one, after those already
      on an overlay. */
  lemma RenderSnoc(base: seq<Graphic>, recs: seq<Record>, rec: Record, toInt: string -> int)
    ensures base + Render(recs + [rec], toInt) == base + Render(recs, toInt) + ToSeq(GraphicFor(rec, toInt))
  {
    assert (recs + [rec])[..|recs|] == recs;
  }

  class GraphicsOverlayDictionaryRenderer<E> {
    /** QVariant::toInt on a field value. */
    const toInt: string -> int
    /** Geometry::extent. */
    const extentOf: Geometry -> E
    /** GeometryEngine::unionOf followed by extent. */
    const unionOf: (E, E) -> E

    /** m_graphicsOverlay->graphics() */
    var graphics: seq<Graphic>
    /** m_bbox; None while it is the empty geometry. */
    var bbox: Option<E>

    /** Every graphic has a non-empty geometry and no reserved field, and the
        accumulator covers exactly the graphics appended so far. */
    ghost predicate Valid()
      reads this
    {
      && (forall i :: 0 <= i < |graphics| ==> WellFormed(graphics[i]))
      && bbox == BBoxOf(extentOf, unionOf, graphics)
    }

    /** A fresh overlay and an empty accumulator. */
    constructor (toInt: string -> int, extentOf: Geometry -> E, unionOf: (E, E) -> E)
      ensures Valid()
      ensures graphics == [] && bbox == None
      ensures this.toInt == toInt && this.extentOf == extentOf && this.unionOf == unionOf
    {
      this.toInt := toInt;
      this.extentOf := extentOf;
      this.unionOf := unionOf;
      graphics := [];
      bbox := None;
    }

    /** createGraphic: appends the graphic for `rawAttributes` when its geometry
        is not empty, and then grows the accumulator by that graphic's extent. */
    method CreateGraphic(rawAttributes: Record)
      requires Valid()
      modifies this
      ensures Valid()
      ensures graphics == old(graphics) + ToSeq(GraphicFor(rawAttributes, toInt))
      ensures GraphicFor(rawAttributes, toInt).None? ==> bbox == old(bbox)
      ensures GraphicFor(rawAttributes, toInt).Some? ==>
                var e := extentOf(GraphicFor(rawAttributes, toInt).value.geometry);
                bbox == Some(if old(bbox).None? then e else unionOf(old(bbox).value, e))
    {
      var wkid := if FieldWkid in rawAttributes then toInt(rawAttributes[FieldWkid]) else DefaultWkid;
      var pointStrings := Split(ControlPointsText(rawAttributes), PointSeparator);
      assert wkid == WkidOf(rawAttributes, toInt) && pointStrings == PointStrings(rawAttributes);
      var geom: Geometry := Empty;
      if |pointStrings| == 1 {
        var coords := Split(pointStrings[0], CoordSeparator);
        if |coords| >= 2 {
          geom := Point(wkid, Coord(coords[0], coords[1]));
        }
      } else {
        geom := BuildMultipoint(pointStrings, wkid);
      }
      assert geom == SelectGeometry(rawAttributes, toInt);

      if !geom.IsEmpty() {
        var attributes := rawAttributes - {FieldControlPoints, FieldWkid};
        var graphic := Graphic(geom, attributes);
        graphics := graphics + [graphic];
        var e := extentOf(geom);
        bbox := if bbox.None? then Some(e) else Some(unionOf(bbox.value, e));
        assert graphics[..|graphics| - 1] == old(graphics);
      }
    }

    /** One pass of parseXmlFile's loop: the token `token` read with the
        locals `readingMessage`, `currentElementName` and `elementValues`.
        The locals change as Step says, and a closing `message` token hands
        the gathered fields to CreateGraphic. */
    method ScanToken(token: Token, readingMessage: bool, currentElementName: string, elementValues: Record)
      returns (reading: bool, cursor: string, values: Record)
      requires Valid()
      modifies this
      ensures Valid()
      ensures forall e :: Step(ScanState(readingMessage, currentElementName, elementValues, e), token)
                          == ScanState(reading, cursor, values,
                                       e + (if IsMessageToken(token) && readingMessage then [elementValues] else []))
      ensures graphics == old(graphics) +
                (if IsMessageToken(token) && readingMessage then ToSeq(GraphicFor(elementValues, toInt)) else [])
    {
      reading, cursor, values := readingMessage, currentElementName, elementValues;
      if NameOf(token) == MessageTag {
        if !readingMessage {
          values := map[];
        } else {
          CreateGraphic(elementValues);
        }
        reading := !readingMessage;
      } else if readingMessage {
        match token
        case StartElement(name) =>
          cursor := name;
        case Characters(text) =>
          if currentElementName != "" {
            var trimmedText := Trim(text);
            if trimmedText != "" {
              values := elementValues[currentElementName := trimmedText];
            }
          }
        case _ =>
      }
    }

    /** parseXmlFile over the tokens of the message document: scans them as
        the state machine Step does, handing each finished message to
        CreateGraphic as soon as its closing token arrives. */
    method ParseXmlFile(tokens: seq<Token>)
      requires Valid()
      modifies this
      ensures Valid()
      ensures graphics == old(graphics) + Render(Scan(tokens).emitted, toInt)
    {
      var readingMessage := false;
      var elementValues: Record := map[];
      var currentElementName := "";
      ghost var handed: seq<Record> := [];
      var i := 0;
      while i < |tokens|
        invariant 0 <= i <= |tokens|
        invariant Valid()
        invariant Scan(tokens[..i]) == ScanState(readingMessage, currentElementName, elementValues, handed)
        invariant graphics == old(graphics) + Render(handed, toInt)
      {
        ScanSnoc(tokens, i);
        ghost var closing := IsMessageToken(tokens[i]) && readingMessage;
        RenderSnoc(old(graphics), handed, elementValues, toInt);
        ghost var previous := elementValues;
        readingMessage, currentElementName, elementValues := ScanToken(tokens[i], readingMessage, currentElementName, elementValues);
        if closing {
          handed := handed + [previous];
        }
        i := i + 1;
      }
      assert tokens[..|tokens|] == tokens;
    }
  }
}
