/**
 * The document as the colorizer sees it: a sequence of lines, each with a
 * stable identity and its current number, text and start offset. A
 * `DocumentLine` handle is a position in that sequence; `NextLine` is the
 * following position, absent after the last line.
 */
module Document {
  import opened Wrappers

  /** The identity of a document line, stable across edits until the line is removed. */
  type LineId = nat

  datatype DocumentLine = DocumentLine(id: LineId, lineNumber: int, text: string, offset: int)

  function Ids(doc: seq<DocumentLine>): set<LineId>
  {
    set l | l in doc :: l.id
  }

  /** The identities of the line at position `from` and of every line after it; none for a null line. */
  function IdsFrom(doc: seq<DocumentLine>, from: Option<nat>): set<LineId>
  {
    match from
    case None => {}
    case Some(i) => set j | i <= j < |doc| :: doc[j].id
  }

  /** `DocumentLine.NextLine`: the position after `i`, or null for the last line. */
  function NextLine(doc: seq<DocumentLine>, i: nat): (r: Option<nat>)
    requires i < |doc|
    ensures r.Some? ==> r.value == i + 1 && r.value < |doc|
    ensures r.None? ==> i == |doc| - 1
  {
    if i + 1 < |doc| then Some(i + 1) else None
  }

  /** The position of the first line with identity `id`. */
  function IndexOfLine(doc: seq<DocumentLine>, id: LineId): (r: nat)
    requires id in Ids(doc)
    ensures r < |doc| && doc[r].id == id
  {
    if doc[0].id == id then 0
    else
      assert id in Ids(doc[1..]) by {
        var l :| l in doc && l.id == id;
        assert l in doc[1..] by { assert doc == [doc[0]] + doc[1..]; }
      }
      1 + IndexOfLine(doc[1..], id)
  }

  /** The line object a cache key stands for. */
  function LineOf(doc: seq<DocumentLine>, id: LineId): (l: DocumentLine)
    requires id in Ids(doc)
    ensures l in doc && l.id == id
  {
    doc[IndexOfLine(doc, id)]
  }
}
