/**
 * The decision `ColorizeMember` makes for one highlight, and what a painted
 * line receives. The brushes are not modelled: a paint is a document span
 * and one of the four styles.
 */
module Styles {
  import opened Wrappers
  import opened Highlighting
  import opened Document

  datatype Style = Ignored | Event | Property | NamespaceDeclaration

  /** The token starts with one of the context's ignorable prefixes followed by ':'. */
  predicate IsIgnoredXmlns(info: HighlightingInfo)
  {
    exists i :: 0 <= i < |info.context.ignoredXmlns| && info.context.ignoredXmlns[i] + ":" <= info.token
  }

  /** The token is a namespace declaration or uses the markup-compatibility prefix. */
  predicate IsNamespaceToken(info: HighlightingInfo)
  {
    "xmlns" <= info.token || info.context.markupCompatibilityPrefix + ":" <= info.token
  }

  /**
   * The branches of `ColorizeMember`: exactly one outcome, where an ignored
   * prefix wins over a member, a member is an event or else a property, and
   * an unresolved token is a namespace declaration or is not highlighted.
   */
  function Classify(info: HighlightingInfo, member: Option<Member>): (r: Option<Style>)
    ensures r == Some(Ignored) <==> IsIgnoredXmlns(info)
    ensures r == Some(Event) <==> !IsIgnoredXmlns(info) && member.Some? && member.value.isEvent
    ensures r == Some(Property) <==> !IsIgnoredXmlns(info) && member.Some? && !member.value.isEvent
    ensures r == Some(NamespaceDeclaration) <==> !IsIgnoredXmlns(info) && member.None? && IsNamespaceToken(info)
    ensures r == None <==> !IsIgnoredXmlns(info) && member.None? && !IsNamespaceToken(info)
  {
    if IsIgnoredXmlns(info) then Some(Ignored)
    else if member.Some? then
      if member.value.isEvent then Some(Event) else Some(Property)
    else if IsNamespaceToken(info) then Some(NamespaceDeclaration)
    else None
  }

  /** A style applied to the document span [startOffset, endOffset). */
  datatype Paint = Paint(startOffset: int, endOffset: int, style: Style)

  /**
   * The span lies within the line being painted and does not end before it
   * starts. The painting call of the rendering library (`ChangeLinePart`)
   * throws ArgumentOutOfRangeException otherwise.
   */
  predicate InLine(info: HighlightingInfo, line: DocumentLine)
  {
    info.startOffset <= info.endOffset <= |line.text|
  }

  /** A highlight whose style would be applied outside the current line. */
  predicate OutOfRange(h: Highlight, line: DocumentLine)
  {
    Classify(h.info, h.member).Some? && !InLine(h.info, line)
  }

  /** What painting one highlight applies to the line, if anything. */
  function PaintOf(h: Highlight, line: DocumentLine): (p: Option<Paint>)
    ensures p.Some? <==> Classify(h.info, h.member).Some? && !OutOfRange(h, line)
    ensures p.Some? ==> p.value.style == Classify(h.info, h.member).value
    ensures p.Some? ==> line.offset <= p.value.startOffset <= p.value.endOffset <= line.offset + |line.text|
  {
    match Classify(h.info, h.member)
    case None => None
    case Some(style) =>
      if InLine(h.info, line)
      then Some(Paint(line.offset + h.info.startOffset, line.offset + h.info.endOffset, style))
      else None
  }

  function AsSeq(p: Option<Paint>): seq<Paint>
  {
    if p.Some? then [p.value] else []
  }

  /** What painting a result list applies, in the list's order. */
  function PaintsOf(rs: seq<Highlight>, line: DocumentLine): seq<Paint>
  {
    if rs == [] then [] else PaintsOf(rs[..|rs| - 1], line) + AsSeq(PaintOf(rs[|rs| - 1], line))
  }

  /** Some highlight of the list is out of range for the line. */
  function AnyOutOfRange(rs: seq<Highlight>, line: DocumentLine): (b: bool)
    ensures b <==> exists i :: 0 <= i < |rs| && OutOfRange(rs[i], line)
  {
    if rs == [] then false
    else
      assert forall i :: 0 <= i < |rs| - 1 ==> rs[..|rs| - 1][i] == rs[i];
      AnyOutOfRange(rs[..|rs| - 1], line) || OutOfRange(rs[|rs| - 1], line)
  }

  /** Painting one more highlight of a list appends what that highlight paints. */
  lemma PaintsOfPrefix(rs: seq<Highlight>, i: nat, line: DocumentLine)
    requires i < |rs|
    ensures PaintsOf(rs[..i + 1], line) == PaintsOf(rs[..i], line) + AsSeq(PaintOf(rs[i], line))
    ensures AnyOutOfRange(rs[..i + 1], line) == (AnyOutOfRange(rs[..i], line) || OutOfRange(rs[i], line))
  {
    assert rs[..i + 1][..i] == rs[..i];
  }

  /** Painting a concatenation paints the first list, then the second. */
  lemma {:induction false} PaintsOfAppend(a: seq<Highlight>, b: seq<Highlight>, line: DocumentLine)
    ensures PaintsOf(a + b, line) == PaintsOf(a, line) + PaintsOf(b, line)
    decreases |b|
  {
    if b == [] {
      assert a + b == a;
    } else {
      var b' := b[..|b| - 1];
      assert (a + b)[..|a + b| - 1] == a + b';
      assert (a + b)[|a + b| - 1] == b[|b| - 1];
      PaintsOfAppend(a, b', line);
    }
  }

  /**
   * When every highlight of the list is styled and inside the line, painting
   * applies one paint per highlight, the i-th being the i-th highlight's.
   */
  lemma {:induction false} PaintsOfAll(rs: seq<Highlight>, line: DocumentLine)
    requires forall i :: 0 <= i < |rs| ==> PaintOf(rs[i], line).Some?
    ensures |PaintsOf(rs, line)| == |rs|
    ensures forall i :: 0 <= i < |rs| ==> PaintsOf(rs, line)[i] == PaintOf(rs[i], line).value
  {
    if rs != [] {
      var init := rs[..|rs| - 1];
      assert forall i :: 0 <= i < |init| ==> init[i] == rs[i];
      PaintsOfAll(init, line);
    }
  }

  /** Painting never applies more paints than there are highlights. */
  lemma {:induction false} PaintsOfLength(rs: seq<Highlight>, line: DocumentLine)
    ensures |PaintsOf(rs, line)| <= |rs|
  {
    if rs != [] {
      PaintsOfLength(rs[..|rs| - 1], line);
    }
  }
}
