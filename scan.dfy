/**
 * The message scanner of GraphicsOverlayDictionaryRenderer::parseXmlFile as a
 * state machine over the tokens a QXmlStreamReader delivers.
 *
 * The scanner keeps three things: whether it is inside a message, the name of
 * the child element it last entered (the cursor), and the fields gathered for
 * the current message. Every token named `message` (opening or closing) flips
 * the first; the flip that ends a message hands the gathered fields on.
 * Step/Run define that machine; the lemmas below say what it computes.
 */
module MessageScan {
  import opened Text
  import opened Wrappers

  /** One token of the XML stream. `Other` stands for the token kinds that
      carry no name: start and end of document, DTD, comment, processing
      instruction, and the invalid token the reader reports on an error. */
  datatype Token =
    | StartElement(name: string)
    | EndElement(name: string)
    | Characters(text: string)
    | EntityReference(name: string)
    | Other

  /** QXmlStreamReader::name(): the local name of a start element, end
      element or entity reference, and the empty string for every other token. */
  function NameOf(t: Token): string {
    match t
    case StartElement(n) => n
    case EndElement(n) => n
    case EntityReference(n) => n
    case _ => ""
  }

  const MessageTag: string := "message"

  predicate IsMessageToken(t: Token) {
    NameOf(t) == MessageTag
  }

  /** The fields of one message: child element name to trimmed text. */
  type Record = map<string, string>

  /** The scanner's locals (`readingMessage`, `currentElementName`,
      `elementValues`) together with the records handed on so far. */
  datatype ScanState = ScanState(reading: bool, cursor: string, values: Record, emitted: seq<Record>)

  const Initial: ScanState := ScanState(false, "", map[], [])

  /** One pass of the scanning loop. */
  function Step(s: ScanState, t: Token): (r: ScanState)
    // Every token named `message` flips the flag, and nothing else does.
    ensures r.reading == (s.reading != IsMessageToken(t))
    // A record is handed on exactly at a message token that arrives inside a message.
    ensures r.emitted == s.emitted + (if IsMessageToken(t) && s.reading then [s.values] else [])
    // Only a child start element inside a message moves the cursor.
    ensures r.cursor != s.cursor ==> s.reading && t.StartElement? && !IsMessageToken(t)
    ensures s.reading && t.StartElement? && !IsMessageToken(t) ==> r.cursor == t.name
    // An opening message token clears the fields.
    ensures IsMessageToken(t) && !s.reading ==> r.values == map[]
    // Text stores its trimmed form under the cursor and leaves every other key alone.
    ensures s.reading && t.Characters? && s.cursor != "" && Trim(t.text) != "" ==>
              r.values == s.values[s.cursor := Trim(t.text)]
    // Nothing else touches the fields.
    ensures !(IsMessageToken(t) && !s.reading) && !(s.reading && t.Characters? && s.cursor != "" && Trim(t.text) != "") ==>
              r.values == s.values
  {
    if IsMessageToken(t) then
      if !s.reading then s.(reading := true, values := map[])
      else s.(reading := false, emitted := s.emitted + [s.values])
    else if s.reading then
      match t
      case StartElement(n) => s.(cursor := n)
      case Characters(text) =>
        var trimmed := Trim(text);
        if s.cursor != "" && trimmed != "" then s.(values := s.values[s.cursor := trimmed]) else s
      case _ => s
    else s
  }

  /** The scanner after the tokens `ts`, starting from `s`. */
  function Run(s: ScanState, ts: seq<Token>): (r: ScanState)
    // Each token hands on at most one record.
    ensures |s.emitted| <= |r.emitted| <= |s.emitted| + |ts|
    decreases |ts|
  {
    if ts == [] then s else Step(Run(s, ts[..|ts| - 1]), ts[|ts| - 1])
  }

  /** The scanner after a whole document. */
  function Scan(ts: seq<Token>): (r: ScanState)
    ensures |r.emitted| <= |ts|
  {
    Run(Initial, ts)
  }

  /** How many tokens of `ts` are named `message`. */
  function CountMessages(ts: seq<Token>): nat
    decreases |ts|
  {
    if ts == [] then 0
    else CountMessages(ts[..|ts| - 1]) + (if IsMessageToken(ts[|ts| - 1]) then 1 else 0)
  }

  /** Running the scanner over a concatenation runs it over each part in turn. */
  lemma {:induction false} RunAppend(s: ScanState, a: seq<Token>, b: seq<Token>)
    ensures Run(s, a + b) == Run(Run(s, a), b)
    decreases |b|
  {
    if b == [] {
      assert a + b == a;
    } else {
      var b' := b[..|b| - 1];
      RunAppend(s, a, b');
      assert (a + b)[..|a + b| - 1] == a + b';
    }
  }

  /** After a document the scanner is inside a message exactly when it has
      seen an odd number of `message` tokens, and it has handed on one record
      for every second such token. */
  lemma {:induction false} ScanCounts(ts: seq<Token>)
    ensures Scan(ts).reading <==> CountMessages(ts) % 2 == 1
    ensures |Scan(ts).emitted| == CountMessages(ts) / 2
    decreases |ts|
  {
    if ts != [] {
      var prefix := ts[..|ts| - 1];
      ScanCounts(prefix);
      var n := CountMessages(prefix);
      if IsMessageToken(ts[|ts| - 1]) {
        assert CountMessages(ts) == n + 1;
        if n % 2 == 1 {
          assert (n + 1) / 2 == n / 2 + 1 && (n + 1) % 2 == 0;
        } else {
          assert (n + 1) / 2 == n / 2 && (n + 1) % 2 == 1;
        }
      } else {
        assert CountMessages(ts) == n;
      }
    }
  }

  /** Records are only ever appended: the scanner never drops or rewrites one. */
  lemma {:induction false} EmittedGrows(s: ScanState, ts: seq<Token>)
    ensures |s.emitted| <= |Run(s, ts).emitted|
    ensures Run(s, ts).emitted[..|s.emitted|] == s.emitted
    decreases |ts|
  {
    if ts != [] {
      EmittedGrows(s, ts[..|ts| - 1]);
    }
  }

  /** The cursor after the tokens `body` of a message, entered with cursor `c`:
      the name of the last child start element, or `c` if there is none. */
  function CursorAfter(c: string, body: seq<Token>): string
    decreases |body|
  {
    if body == [] then c
    else match body[|body| - 1]
      case StartElement(n) => n
      case _ => CursorAfter(c, body[..|body| - 1])
  }

  /** The last non-blank trimmed text of `body` that arrived while `key` was
      the current element, if any. */
  function LastText(c: string, body: seq<Token>, key: string): Option<string>
    decreases |body|
  {
    if body == [] then None
    else
      var i := |body| - 1;
      if key != "" && body[i].Characters? && Trim(body[i].text) != "" && CursorAfter(c, body[..i]) == key
      then Some(Trim(body[i].text))
      else LastText(c, body[..i], key)
  }

  predicate NoMessageToken(body: seq<Token>) {
    forall i :: 0 <= i < |body| ==> !IsMessageToken(body[i])
  }

  /** Inside a message, a field holds the last non-blank trimmed text seen
      while it was the current element; a field with no such text keeps what
      it held; the cursor is the last child element entered. */
  lemma {:induction false} InsideMessage(s: ScanState, body: seq<Token>)
    requires s.reading && NoMessageToken(body)
    ensures Run(s, body).reading && Run(s, body).emitted == s.emitted
    ensures Run(s, body).cursor == CursorAfter(s.cursor, body)
    ensures forall k :: k in Run(s, body).values <==> k in s.values || LastText(s.cursor, body, k).Some?
    ensures forall k :: k in Run(s, body).values ==>
              Run(s, body).values[k] == match LastText(s.cursor, body, k)
                                        case Some(v) => v
                                        case None => s.values[k]
    decreases |body|
  {
    if body != [] {
      InsideMessage(s, body[..|body| - 1]);
    }
  }

  /** A whole message: what the scanner hands on at the closing token holds
      exactly the fields set since the opening token, whatever it held before. */
  lemma MessageRecord(s: ScanState, open: Token, body: seq<Token>, close: Token)
    requires !s.reading && IsMessageToken(open) && IsMessageToken(close) && NoMessageToken(body)
    ensures var r := Run(s, [open] + body + [close]);
            && !r.reading
            && r.cursor == CursorAfter(s.cursor, body)
            && |r.emitted| == |s.emitted| + 1
            && r.emitted[..|s.emitted|] == s.emitted
            && var rec := r.emitted[|s.emitted|];
               forall k :: (k in rec <==> LastText(s.cursor, body, k).Some?)
                           && (k in rec ==> rec[k] == LastText(s.cursor, body, k).value)
  {
    var inside := Step(s, open);
    assert Run(s, [open]) == inside by {
      assert [open][..0] == [];
    }
    RunAppend(s, [open], body);
    RunAppend(s, [open] + body, [close]);
    assert Run(Run(s, [open] + body), [close]) == Step(Run(s, [open] + body), close) by {
      assert [close][..0] == [];
    }
    InsideMessage(inside, body);
  }

  /** Every value the scanner stores is non-blank and already trimmed, and
      every field name is non-empty. */
  predicate Clean(rec: Record) {
    forall k :: k in rec ==> k != "" && rec[k] != [] && Trim(rec[k]) == rec[k]
  }

  predicate StateClean(s: ScanState) {
    Clean(s.values) && forall j :: 0 <= j < |s.emitted| ==> Clean(s.emitted[j])
  }

  lemma StepClean(s: ScanState, t: Token)
    requires StateClean(s)
    ensures StateClean(Step(s, t))
  {
    var r := Step(s, t);
    if s.reading && t.Characters? && s.cursor != "" && Trim(t.text) != "" {
      var v := Trim(t.text);
      TrimIdempotent(t.text);
      assert r.values == s.values[s.cursor := v];
      forall k | k in r.values ensures k != "" && r.values[k] != [] && Trim(r.values[k]) == r.values[k] {
        if k == s.cursor {
          assert r.values[k] == v;
        } else {
          assert r.values[k] == s.values[k];
        }
      }
      assert r.emitted == s.emitted;
    } else if IsMessageToken(t) && s.reading {
      assert r.emitted == s.emitted + [s.values];
      assert r.values == s.values;
    }
  }

  lemma {:induction false} RunClean(s: ScanState, ts: seq<Token>)
    requires StateClean(s)
    ensures StateClean(Run(s, ts))
    decreases |ts|
  {
    if ts != [] {
      RunClean(s, ts[..|ts| - 1]);
      StepClean(Run(s, ts[..|ts| - 1]), ts[|ts| - 1]);
    }
  }

  /** Every record of a document has non-empty names and trimmed, non-blank values. */
  lemma ScanClean(ts: seq<Token>)
    ensures forall j :: 0 <= j < |Scan(ts).emitted| ==> Clean(Scan(ts).emitted[j])
  {
    RunClean(Initial, ts);
  }
}
