# GraphicsOverlayDictionaryRenderer message parser, in Dafny

This project models the one piece of logic in the GraphicsOverlayDictionaryRenderer
sample, and proves properties of it. The sample reads an XML file of military
`<message>` elements, collects each message's child elements into a field map, and
turns every map into a graphic on a graphics overlay. A graphic is a point or a
multipoint built from the `_control_points` field, in the spatial reference named
by `_wkid`. The sample also keeps a bounding accumulator (`m_bbox`) over the
extents of the graphics it has added.

The model has five modules:

- `Text`: `QStringRef::trimmed` (white space as `QChar::isSpace` defines it) and
  `QString::split` on one separator character, keeping empty parts.
- `MessageScan`: the scanning loop of `parseXmlFile` as a state machine `Step`
  over XML tokens. The state holds the three locals `readingMessage`,
  `currentElementName` and `elementValues`, plus the list of field maps handed
  to `createGraphic` so far. The module also has lemmas about whole documents and
  whole messages.
- `Graphics`: from one field map to a graphic, as `createGraphic` does it. It uses
  the two reserved field names `_control_points` and `_wkid` (the constants
  `FieldControlPoints` and `FieldWkid`), the default spatial reference 4326 and
  the `;` and `,` separators.
- `Renderer`: the class `GraphicsOverlayDictionaryRenderer`. Its fields are the
  overlay's graphics and the bounding accumulator. Its methods are:
  - `CreateGraphic`, including the multipoint loop;
  - `ParseXmlFile`, the token loop;
  - `ScanToken`, one pass of that loop.

  Each method is proved against the functions `Render` (the graphics a
  sequence of field maps gives) and `BBoxOf` (the accumulator those graphics
  give).
- `Wrappers`: `Option`.

Some behaviour comes from outside the sample or is never computed by it:

- The XML tokenizer's output is the input: a sequence of `Token`s.
- `QVariant::toInt` on `_wkid` is the function parameter `toInt`.
- Coordinates stay as the `,`-separated token strings that the source passes to
  `QString::toDouble`.
- `Geometry::extent` and `GeometryEngine::unionOf(...).extent()` are the
  function parameters `extentOf` and `unionOf`. The model says when each is
  applied and to what, but not what they compute.

Three places where the code does something other than might be expected, and
what the model does there:

- The comments at lines 99 and 104–112 speak of the start and the end of a
  message element. The code toggles on every token whose name is `message`
  (line 100), start and end tags alike, and the model does the same: in
  `<message>…</message>`, the start tag opens the message and the end tag
  closes it.
- The comment at line 147 says `_wkid` falls back to 4326 when absent. The code
  tests only for the key's presence (line 148). The scanner never stores an
  empty value (`MessageScan.ScanClean`), so "absent" and "absent or empty" agree
  on every map the scanner produces.
- For a single control point without two `,` tokens, a message without
  `_control_points` included, line 156 reads a second token that is not there.
  Here the class does NOT follow the code. `Graphics.SelectGeometryAsWritten`
  models the code as written, wherever it is defined. The class uses the
  corrected `Graphics.SelectGeometry`, which gives no geometry on these inputs,
  so no graphic is added (see Findings and "Left out").

## Model

All source paths are `ArcGISRuntimeSDKQt_CppSamples/DisplayInformation/GraphicsOverlayDictionaryRenderer/GraphicsOverlayDictionaryRenderer.cpp`.

| member | source | states |
|---|---|---|
| MessageScan.Step | ArcGISRuntimeSDKQt_CppSamples/DisplayInformation/GraphicsOverlayDictionaryRenderer/GraphicsOverlayDictionaryRenderer.cpp:99-141 | Every token named `message` flips the reading flag, and no other token does. A field map is handed on exactly at a `message` token that arrives while reading. Only a child start element inside a message moves the cursor, and it moves it to that element's name; end tags leave it alone. An opening token clears the fields. Text inside a message is stored trimmed under the cursor when the cursor is non-empty and the trimmed text is not blank. Nothing else changes the fields. |
| MessageScan.Run | ArcGISRuntimeSDKQt_CppSamples/DisplayInformation/GraphicsOverlayDictionaryRenderer/GraphicsOverlayDictionaryRenderer.cpp:95-141 | The scanning loop over a run of tokens, started from a given state. It keeps every record already handed on and adds at most one per token. |
| MessageScan.Scan | ArcGISRuntimeSDKQt_CppSamples/DisplayInformation/GraphicsOverlayDictionaryRenderer/GraphicsOverlayDictionaryRenderer.cpp:78-141 | The scanner over a whole document, started with the flag clear, an empty cursor and no fields: a document hands on no more records than it has tokens. |
| MessageScan.ScanCounts | ArcGISRuntimeSDKQt_CppSamples/DisplayInformation/GraphicsOverlayDictionaryRenderer/GraphicsOverlayDictionaryRenderer.cpp:95-117 | After a document, the scanner is inside a message iff it has seen an odd number of `message` tokens. It has handed on ⌊count/2⌋ field maps. |
| MessageScan.EmittedGrows | ArcGISRuntimeSDKQt_CppSamples/DisplayInformation/GraphicsOverlayDictionaryRenderer/GraphicsOverlayDictionaryRenderer.cpp:107-114 | Field maps already handed on are kept, in order, as scanning goes on. |
| MessageScan.RunAppend | ArcGISRuntimeSDKQt_CppSamples/DisplayInformation/GraphicsOverlayDictionaryRenderer/GraphicsOverlayDictionaryRenderer.cpp:95-97 | Scanning a concatenation is scanning each part in turn, from the state the first part leaves. |
| MessageScan.InsideMessage | ArcGISRuntimeSDKQt_CppSamples/DisplayInformation/GraphicsOverlayDictionaryRenderer/GraphicsOverlayDictionaryRenderer.cpp:119-139 | Inside a message, each field holds the last non-blank trimmed text seen while that field was the current element, and a field with no such text keeps its earlier value. The cursor is the last child element entered, or the one it held on entry. |
| MessageScan.MessageRecord | ArcGISRuntimeSDKQt_CppSamples/DisplayInformation/GraphicsOverlayDictionaryRenderer/GraphicsOverlayDictionaryRenderer.cpp:100-139 | For a whole `message … message` span, exactly one field map is handed on. It holds exactly the fields set since the opening token, whatever was gathered before. The cursor carries over into the next message, uncleared. |
| MessageScan.StepClean | ArcGISRuntimeSDKQt_CppSamples/DisplayInformation/GraphicsOverlayDictionaryRenderer/GraphicsOverlayDictionaryRenderer.cpp:131-137 | One token keeps every stored name non-empty and every stored value non-blank and already trimmed. |
| MessageScan.RunClean | ArcGISRuntimeSDKQt_CppSamples/DisplayInformation/GraphicsOverlayDictionaryRenderer/GraphicsOverlayDictionaryRenderer.cpp:95-141 | Any run of tokens keeps that cleanliness, in the working map and in every map handed on. |
| MessageScan.ScanClean | ArcGISRuntimeSDKQt_CppSamples/DisplayInformation/GraphicsOverlayDictionaryRenderer/GraphicsOverlayDictionaryRenderer.cpp:131-137 | Every field map of a document has non-empty names and trimmed, non-blank values. |
| Text.TrimStartIndex | ArcGISRuntimeSDKQt_CppSamples/DisplayInformation/GraphicsOverlayDictionaryRenderer/GraphicsOverlayDictionaryRenderer.cpp:134 | The first position at or after `i` that is not white space, with only white space skipped. |
| Text.TrimEndIndex | ArcGISRuntimeSDKQt_CppSamples/DisplayInformation/GraphicsOverlayDictionaryRenderer/GraphicsOverlayDictionaryRenderer.cpp:134 | The end of the last non-white-space character before `j`, with only white space dropped. |
| Text.Trim | ArcGISRuntimeSDKQt_CppSamples/DisplayInformation/GraphicsOverlayDictionaryRenderer/GraphicsOverlayDictionaryRenderer.cpp:134-135 | The trimmed text is empty iff the text is all white space. Otherwise it starts and ends with a character that is not white space. |
| Text.TrimIsInfix | ArcGISRuntimeSDKQt_CppSamples/DisplayInformation/GraphicsOverlayDictionaryRenderer/GraphicsOverlayDictionaryRenderer.cpp:134 | Trimming removes white space only, and only from the two ends: the result is a contiguous piece of the input. |
| Text.TrimIdempotent | ArcGISRuntimeSDKQt_CppSamples/DisplayInformation/GraphicsOverlayDictionaryRenderer/GraphicsOverlayDictionaryRenderer.cpp:134 | Trimming twice gives the same as trimming once. |
| Text.Split | ArcGISRuntimeSDKQt_CppSamples/DisplayInformation/GraphicsOverlayDictionaryRenderer/GraphicsOverlayDictionaryRenderer.cpp:151 | There is always at least one part, and no part contains the separator. |
| Text.JoinSplit | ArcGISRuntimeSDKQt_CppSamples/DisplayInformation/GraphicsOverlayDictionaryRenderer/GraphicsOverlayDictionaryRenderer.cpp:151 | Splitting loses nothing: joining the parts with the separator gives the text back. |
| Text.SplitJoin | ArcGISRuntimeSDKQt_CppSamples/DisplayInformation/GraphicsOverlayDictionaryRenderer/GraphicsOverlayDictionaryRenderer.cpp:151 | Joining separator-free parts and splitting again gives the parts back, empty ones included. |
| Text.SplitNoSeparator | ArcGISRuntimeSDKQt_CppSamples/DisplayInformation/GraphicsOverlayDictionaryRenderer/GraphicsOverlayDictionaryRenderer.cpp:155 | Text without the separator, the empty text included, is one part. |
| Text.SplitFirst | ArcGISRuntimeSDKQt_CppSamples/DisplayInformation/GraphicsOverlayDictionaryRenderer/GraphicsOverlayDictionaryRenderer.cpp:151 | A separator-free prefix followed by the separator is split off as the first part. |
| Graphics.WkidOf | ArcGISRuntimeSDKQt_CppSamples/DisplayInformation/GraphicsOverlayDictionaryRenderer/GraphicsOverlayDictionaryRenderer.cpp:148 | The spatial reference is 4326 when the field map has no `_wkid`, and otherwise `toInt` of its value. |
| Graphics.ControlPointsText | ArcGISRuntimeSDKQt_CppSamples/DisplayInformation/GraphicsOverlayDictionaryRenderer/GraphicsOverlayDictionaryRenderer.cpp:151 | The control-point text is the `_control_points` value, and the empty text when the field is missing. |
| Graphics.PointStrings | ArcGISRuntimeSDKQt_CppSamples/DisplayInformation/GraphicsOverlayDictionaryRenderer/GraphicsOverlayDictionaryRenderer.cpp:151 | The `;`-parts of `_control_points`, with an absent field read as empty text; there is always at least one part. |
| Graphics.CoordOf | ArcGISRuntimeSDKQt_CppSamples/DisplayInformation/GraphicsOverlayDictionaryRenderer/GraphicsOverlayDictionaryRenderer.cpp:164-166 | The point of a part is its first two `,`-tokens: these two tokens and the remaining ones, joined with `,`, give the part back. |
| Graphics.PointsOf | ArcGISRuntimeSDKQt_CppSamples/DisplayInformation/GraphicsOverlayDictionaryRenderer/GraphicsOverlayDictionaryRenderer.cpp:162-167 | A multipoint never has more points than parts. |
| Graphics.PointsOfAppend | ArcGISRuntimeSDKQt_CppSamples/DisplayInformation/GraphicsOverlayDictionaryRenderer/GraphicsOverlayDictionaryRenderer.cpp:162-167 | The points of consecutive parts follow one another, so input order is kept. |
| Graphics.PointsOfNone | ArcGISRuntimeSDKQt_CppSamples/DisplayInformation/GraphicsOverlayDictionaryRenderer/GraphicsOverlayDictionaryRenderer.cpp:162-167 | No point survives iff no part has two `,`-tokens. |
| Graphics.PointsOfAllPairs | ArcGISRuntimeSDKQt_CppSamples/DisplayInformation/GraphicsOverlayDictionaryRenderer/GraphicsOverlayDictionaryRenderer.cpp:162-167 | When every part has two tokens, there is one point per part, each the point of the part at the same position. |
| Graphics.BuildMultipoint | ArcGISRuntimeSDKQt_CppSamples/DisplayInformation/GraphicsOverlayDictionaryRenderer/GraphicsOverlayDictionaryRenderer.cpp:160-169 | The point-collection loop builds the multipoint, in the given spatial reference, of exactly the parts with at least two tokens, in order. |
| Graphics.SelectGeometryAsWritten | ArcGISRuntimeSDKQt_CppSamples/DisplayInformation/GraphicsOverlayDictionaryRenderer/GraphicsOverlayDictionaryRenderer.cpp:148-170 | The geometry as written. It is defined only where the single-point branch has a second token to read, and there it is never the default empty geometry. |
| Graphics.MissingPairUnreadable | ArcGISRuntimeSDKQt_CppSamples/DisplayInformation/GraphicsOverlayDictionaryRenderer/GraphicsOverlayDictionaryRenderer.cpp:151-156 | Control-point text with neither `;` nor `,` (for example `""` or `"5"`) leaves the single-point branch without a second token. |
| Graphics.NoControlPointsUnreadable | ArcGISRuntimeSDKQt_CppSamples/DisplayInformation/GraphicsOverlayDictionaryRenderer/GraphicsOverlayDictionaryRenderer.cpp:151-156 | A message without `_control_points` leaves the single-point branch without a second token. |
| Graphics.SelectGeometry | ArcGISRuntimeSDKQt_CppSamples/DisplayInformation/GraphicsOverlayDictionaryRenderer/GraphicsOverlayDictionaryRenderer.cpp:148-170 | The corrected geometry. Wherever the as-written code reads no token past the end, it is that code's geometry. |
| Graphics.SelectGeometryShape | ArcGISRuntimeSDKQt_CppSamples/DisplayInformation/GraphicsOverlayDictionaryRenderer/GraphicsOverlayDictionaryRenderer.cpp:148-170 | The geometry is: a point iff there is one `;`-part and it has two `,`-tokens (the point being its first two tokens); a multipoint iff there are several parts (of exactly the parts with two tokens, in order); empty iff no part has two tokens. Either way the spatial reference is `toInt` of `_wkid` if that field is present, and 4326 otherwise. |
| Graphics.NoControlPointsEmpty | ArcGISRuntimeSDKQt_CppSamples/DisplayInformation/GraphicsOverlayDictionaryRenderer/GraphicsOverlayDictionaryRenderer.cpp:151-172 | An absent `_control_points`, or one with neither separator, gives the empty geometry. |
| Graphics.GraphicFor | ArcGISRuntimeSDKQt_CppSamples/DisplayInformation/GraphicsOverlayDictionaryRenderer/GraphicsOverlayDictionaryRenderer.cpp:172-180 | A graphic, when there is one, has a non-empty geometry and neither reserved field among its attributes. |
| Graphics.GraphicForFields | ArcGISRuntimeSDKQt_CppSamples/DisplayInformation/GraphicsOverlayDictionaryRenderer/GraphicsOverlayDictionaryRenderer.cpp:172-180 | There is a graphic iff the geometry is not empty. It carries that geometry, and as attributes every field except `_control_points` and `_wkid`, with its value unchanged. |
| Graphics.TwoPointMultipoint | ArcGISRuntimeSDKQt_CppSamples/DisplayInformation/GraphicsOverlayDictionaryRenderer/GraphicsOverlayDictionaryRenderer.cpp:148-169 | `"x1,y1;x2,y2"` without `_wkid` is the multipoint (x1,y1), (x2,y2) in spatial reference 4326. |
| Graphics.SinglePoint | ArcGISRuntimeSDKQt_CppSamples/DisplayInformation/GraphicsOverlayDictionaryRenderer/GraphicsOverlayDictionaryRenderer.cpp:148-156 | `"x,y"` with `_wkid` w is the point (x,y) in spatial reference `toInt(w)`. |
| Renderer.Render | ArcGISRuntimeSDKQt_CppSamples/DisplayInformation/GraphicsOverlayDictionaryRenderer/GraphicsOverlayDictionaryRenderer.cpp:172-181 | The graphics for a sequence of field maps: at most one per map, each well formed. |
| Renderer.RenderNothing | ArcGISRuntimeSDKQt_CppSamples/DisplayInformation/GraphicsOverlayDictionaryRenderer/GraphicsOverlayDictionaryRenderer.cpp:172 | Field maps whose geometries are all empty add no graphic. |
| Renderer.RenderEach | ArcGISRuntimeSDKQt_CppSamples/DisplayInformation/GraphicsOverlayDictionaryRenderer/GraphicsOverlayDictionaryRenderer.cpp:172-181 | Field maps whose geometries are all non-empty give one graphic each, in order, each being that map's graphic. |
| Renderer.BBoxOf | ArcGISRuntimeSDKQt_CppSamples/DisplayInformation/GraphicsOverlayDictionaryRenderer/GraphicsOverlayDictionaryRenderer.cpp:182 | The accumulator is empty iff no graphic has been added. |
| Renderer.SkippedThenPlaced | ArcGISRuntimeSDKQt_CppSamples/DisplayInformation/GraphicsOverlayDictionaryRenderer/GraphicsOverlayDictionaryRenderer.cpp:172-182 | A message without a usable geometry followed by one with a geometry gives exactly one graphic. The accumulator is then that graphic's extent alone. |
| Renderer.GraphicsBound | ArcGISRuntimeSDKQt_CppSamples/DisplayInformation/GraphicsOverlayDictionaryRenderer/GraphicsOverlayDictionaryRenderer.cpp:95-117 | A document gives at most one graphic for every second `message` token. |
| Renderer.GraphicsOverlayDictionaryRenderer.constructor | ArcGISRuntimeSDKQt_CppSamples/DisplayInformation/GraphicsOverlayDictionaryRenderer/GraphicsOverlayDictionaryRenderer.cpp:58 | A fresh overlay has no graphics, and the accumulator is empty. |
| Renderer.GraphicsOverlayDictionaryRenderer.CreateGraphic | ArcGISRuntimeSDKQt_CppSamples/DisplayInformation/GraphicsOverlayDictionaryRenderer/GraphicsOverlayDictionaryRenderer.cpp:145-184 | Appends the field map's graphic at the end of the overlay when its geometry is not empty, and otherwise changes nothing. The accumulator is then seeded with the new extent when it was empty, and otherwise grown by union with it. The class invariant (every graphic well formed, accumulator in step with the graphics) is kept. |
| Renderer.GraphicsOverlayDictionaryRenderer.ScanToken | ArcGISRuntimeSDKQt_CppSamples/DisplayInformation/GraphicsOverlayDictionaryRenderer/GraphicsOverlayDictionaryRenderer.cpp:97-141 | One pass of the loop. The locals change as `Step` says. Exactly at a closing `message` token, the gathered fields' graphic, if any, is appended. |
| Renderer.GraphicsOverlayDictionaryRenderer.ParseXmlFile | ArcGISRuntimeSDKQt_CppSamples/DisplayInformation/GraphicsOverlayDictionaryRenderer/GraphicsOverlayDictionaryRenderer.cpp:76-143 | After the document, the overlay holds its earlier graphics followed by the graphics of the scanned field maps, in document order. The accumulator matches them. |

## Left out

- RasterLayerFile.cpp as a whole: it only wires a raster layer into a map, with no logic of its own.
- `componentComplete` (lines 49–74), except the fresh overlay, and `zoomToGraphics` (lines 186–189): these are QML property reading, dictionary renderer construction and map view calls.
- Opening the file and XML tokenization (lines 82–97): the token sequence is the input. A file that cannot be read corresponds to an empty token sequence.
- `QString::toDouble`: coordinates stay as their token strings. The model treats every point as non-empty. A coordinate that parses to NaN, which the SDK would call empty, is not modelled.
- `QVariant::toInt` is the parameter `toInt`, not a parser.
- The SDK geometry types, `Geometry::extent` and `GeometryEngine::unionOf`: `extentOf` and `unionOf` are parameters, and no union or growth semantics are claimed. The accumulator's `isEmpty` test is modelled as "no graphic added yet". An extent the SDK would itself call empty is not modelled.
- `rawAttributes[FIELD_CONTROL_POINTS]` on line 151 inserts an empty entry into the local copy of the map when the field is missing. The model does not insert it. With the corrected geometry that map never becomes a graphic, so the entry is not observable.
- Qt object ownership (`new … (…, this)`), the `MultipointBuilder` and `PointCollection` objects as separate entities, and memory: the point loop builds the point sequence directly.
- Strings are sequences of Unicode code points, not UTF-16 code units. White space and both separators lie in the Basic Multilingual Plane, so trimming and splitting agree.
- Renderer.GraphicsOverlayDictionaryRenderer.CreateGraphic: models the corrected createGraphic of the Findings row. Where line 156 reads `coords[1]` past the end (a single `;`-part without two `,` tokens, a missing `_control_points` included), it appends no graphic and leaves the accumulator unchanged; ScanToken and ParseXmlFile inherit this.
- Renderer.GraphicsOverlayDictionaryRenderer.ScanToken: it is the body of the `parseXmlFile` loop, given its own method. The source writes it inline.

## Findings

| source | as written | input that shows it | evidently intended | confidence | as-written member | corrected member |
|---|---|---|---|---|---|---|
| ArcGISRuntimeSDKQt_CppSamples/DisplayInformation/GraphicsOverlayDictionaryRenderer/GraphicsOverlayDictionaryRenderer.cpp:152-156 | When `_control_points` has one `;`-part, `coords[1]` is read without checking that the part has two `,`-tokens | a message without `_control_points` (which reads as `""` and splits to `[""]`), or with `_control_points` = `"5"` | a single part without two tokens gives the empty geometry, so no graphic is added and the accumulator is unchanged, as for a multipoint without points | not executed | Graphics.SelectGeometryAsWritten, Graphics.NoControlPointsUnreadable, Graphics.MissingPairUnreadable | Graphics.SelectGeometry, Graphics.NoControlPointsEmpty |
