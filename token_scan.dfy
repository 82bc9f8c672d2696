/**
 * `HighlightTask.GetInfo` and the resolution loop of `HighlightTask.Process`:
 * the scan of one line snapshot for attribute and property tokens, and the
 * lookup of the member each token names. The two external resolvers are
 * parameters.
 */
module TokenScan {
  import opened Wrappers
  import opened Text
  import opened Highlighting

  /** The input fields of a `HighlightTask`: what a scan reads. */
  datatype Snapshot = Snapshot(
    fileContent: string,
    fileName: string,
    lineNumber: int,
    lineText: string,
    offset: int)

  /** `CompletionDataHelper.ResolveContext(fileContent, fileName, line, column)`. */
  type ContextResolver = (string, string, int, int) -> XamlContext

  /** `new XamlResolver().Resolve(...) as MemberResolveResult`, its member or null. */
  type MemberResolver = (HighlightingInfo, string) -> Option<Member>

  /** The attribute name the context reports, empty when there is none. */
  function AttributeOf(ctx: XamlContext): string
  {
    if ctx.attributeName.Some? then ctx.attributeName.value else ""
  }

  /**
   * What the scan settles on at a candidate position: the attribute text,
   * the index after skipping a qualified name, and the position of '.' in
   * the element name.
   */
  datatype Candidate = Candidate(attribute: string, index: int, propertyNameIndex: int)

  /**
   * The qualifier rule at candidate `pos`: a dotted attribute keeps its name
   * and moves the index past the part from its '.'; with no attribute, a
   * dotted element name (property-element syntax) becomes the attribute and
   * the index moves past its part from '.'; otherwise nothing changes.
   */
  function Qualify(ctx: XamlContext, pos: nat): (c: Candidate)
    ensures c.propertyNameIndex == IndexOf(ctx.activeElement, '.')
    ensures '.' in AttributeOf(ctx) ==>
      c.attribute == AttributeOf(ctx) && pos < c.index <= pos + |c.attribute|
    ensures '.' !in AttributeOf(ctx) && AttributeOf(ctx) == [] && '.' in ctx.activeElement ==>
      c.attribute == ctx.activeElement && pos < c.index <= pos + |c.attribute|
    ensures '.' !in AttributeOf(ctx) && (AttributeOf(ctx) != [] || '.' !in ctx.activeElement) ==>
      c.attribute == AttributeOf(ctx) && c.index == pos
  {
    var elementName := ctx.activeElement;
    var propertyNameIndex := IndexOf(elementName, '.');
    var attribute := AttributeOf(ctx);
    if '.' in attribute then
      Candidate(attribute, pos + (|attribute| - IndexOf(attribute, '.')), propertyNameIndex)
    else if attribute == [] && '.' in elementName then
      Candidate(elementName, pos + (|elementName| - propertyNameIndex), propertyNameIndex)
    else
      Candidate(attribute, pos, propertyNameIndex)
  }

  /**
   * `LineText.Substring(0, Math.Min(index, LineText.Length)).LastIndexOf(attribute)`:
   * the start of the attribute's last occurrence in the line that ends by
   * the index, or -1 when there is none.
   */
  function AttributeStart(snap: Snapshot, c: Candidate): (k: int)
    requires c.index >= 0 && c.attribute != []
    ensures k == -1 || (OccursAt(snap.lineText, c.attribute, k) && k + |c.attribute| <= c.index)
    ensures forall j :: k < j && j + |c.attribute| <= c.index ==> !OccursAt(snap.lineText, c.attribute, j)
  {
    var m := Min(c.index, |snap.lineText|);
    var k := LastIndexOf(snap.lineText[..m], c.attribute);
    OccursInPrefix(snap.lineText, m, c.attribute, k);
    forall j | k < j && j + |c.attribute| <= c.index
      ensures !OccursAt(snap.lineText, c.attribute, j)
    {
      OccursInPrefix(snap.lineText, m, c.attribute, j);
    }
    k
  }

  /**
   * The info for an accepted candidate: the span of the attribute's last
   * occurrence in the line up to the index. For a dotted element name the
   * span starts after its '.' and the token loses its '/' characters at both
   * ends. The constructor throws when the span starts or ends before the
   * line, which with a valid line offset happens only when the attribute
   * does not occur in the line before the index.
   */
  function SpanInfo(snap: Snapshot, ctx: XamlContext, c: Candidate): (r: Result<HighlightingInfo, ArgumentError>)
    requires c.index >= 0 && c.attribute != []
    ensures r.Success? ==> r.value.context == ctx && r.value.lineOffset == snap.offset
    ensures c.propertyNameIndex <= -1 ==>
      (r.Success? <==> snap.offset >= 0 && AttributeStart(snap, c) != -1)
    ensures c.propertyNameIndex <= -1 && r.Success? ==>
      && r.value.token == c.attribute
      && r.value.startOffset == AttributeStart(snap, c)
      && r.value.startOffset + |c.attribute| == r.value.endOffset <= |snap.lineText|
      && snap.lineText[r.value.startOffset..r.value.endOffset] == c.attribute
    ensures c.propertyNameIndex > -1 ==>
      (r.Success? <==> snap.offset >= 0 && (AttributeStart(snap, c) != -1 || TrimEnd(c.attribute, '/') != []))
    ensures c.propertyNameIndex > -1 && r.Success? ==>
      && r.value.token == Trim(c.attribute, '/')
      && r.value.startOffset == AttributeStart(snap, c) + c.propertyNameIndex + 1
      && r.value.endOffset == AttributeStart(snap, c) + |TrimEnd(c.attribute, '/')|
      && (AttributeStart(snap, c) != -1 ==> r.value.endOffset <= |snap.lineText|)
    ensures r.Failure? ==> r.error.ArgumentOutOfRange?
    ensures r.Failure? && snap.offset >= 0 ==> AttributeStart(snap, c) == -1
  {
    var startIndex := AttributeStart(snap, c);
    if c.propertyNameIndex > -1 then
      NewHighlightingInfo(Some(Trim(c.attribute, '/')), startIndex + c.propertyNameIndex + 1,
                          startIndex + |TrimEnd(c.attribute, '/')|, snap.offset, Some(ctx))
    else
      NewHighlightingInfo(Some(c.attribute), startIndex, startIndex + |c.attribute|, snap.offset, Some(ctx))
  }

  /** The info emitted for a candidate, if any: none in a comment or for an empty attribute. */
  function Emit(snap: Snapshot, ctx: XamlContext, c: Candidate): (r: Option<Result<HighlightingInfo, ArgumentError>>)
    requires c.index >= 0
    ensures r.Some? <==> !ctx.inComment && c.attribute != []
  {
    if !ctx.inComment && c.attribute != [] then Some(SpanInfo(snap, ctx, c)) else None
  }

  /** `xs` in front of a successful outcome; a failure stays as it is. */
  function Prepend(xs: seq<HighlightingInfo>, r: Result<seq<HighlightingInfo>, ArgumentError>)
    : Result<seq<HighlightingInfo>, ArgumentError>
  {
    if r.Success? then Success(xs + r.value) else r
  }

  lemma PrependNothing(r: Result<seq<HighlightingInfo>, ArgumentError>)
    ensures Prepend([], r) == r
  {
    if r.Success? {
      assert [] + r.value == r.value;
    }
  }

  lemma PrependToNothing(xs: seq<HighlightingInfo>)
    ensures Prepend(xs, Success([])) == Success(xs)
  {
    assert xs + [] == xs;
  }

  lemma PrependTwice(xs: seq<HighlightingInfo>, ys: seq<HighlightingInfo>, r: Result<seq<HighlightingInfo>, ArgumentError>)
    ensures Prepend(xs, Prepend(ys, r)) == Prepend(xs + ys, r)
  {
    if r.Success? {
      assert xs + (ys + r.value) == (xs + ys) + r.value;
    }
  }

  /**
   * The rest of the scan once the index is at `index`: the infos emitted in
   * order, or the first exception a constructor throws.
   */
  function Scan(snap: Snapshot, rc: ContextResolver, index: int): Result<seq<HighlightingInfo>, ArgumentError>
    requires index >= -1
    decreases |snap.lineText| - index
  {
    if index + 1 >= |snap.lineText| then Success([])
    else
      var pos := IndexOfAny(snap.lineText, index + 1, '=', '.');
      if pos == -1 then Success([])
      else
        var ctx := rc(snap.fileContent, snap.fileName, snap.lineNumber, pos);
        var c := Qualify(ctx, pos);
        match Emit(snap, ctx, c)
        case None => Scan(snap, rc, c.index)
        case Some(Failure(e)) => Failure(e)
        case Some(Success(info)) => Prepend([info], Scan(snap, rc, c.index))
  }

  /** One step of the scan, unfolded at a candidate position. */
  lemma ScanAt(snap: Snapshot, rc: ContextResolver, index: int)
    requires index >= -1 && index + 1 < |snap.lineText|
    requires IndexOfAny(snap.lineText, index + 1, '=', '.') != -1
    ensures
      var pos := IndexOfAny(snap.lineText, index + 1, '=', '.');
      var ctx := rc(snap.fileContent, snap.fileName, snap.lineNumber, pos);
      var c := Qualify(ctx, pos);
      Scan(snap, rc, index) == match Emit(snap, ctx, c)
        case None => Scan(snap, rc, c.index)
        case Some(Failure(e)) => Failure(e)
        case Some(Success(info)) => Prepend([info], Scan(snap, rc, c.index))
  {
  }

  /**
   * The qualifier steps of `GetInfo`'s loop body at candidate `index`: the
   * element name's '.' position, the attribute, and the index moved past a
   * qualified name.
   */
  method QualifyAt(context: XamlContext, index: nat) returns (c: Candidate)
    ensures c == Qualify(context, index)
  {
    var elementName := context.activeElement;
    var propertyNameIndex := IndexOf(elementName, '.');
    var attribute := AttributeOf(context);
    var next := index;
    if '.' in attribute {
      var tmp := IndexOf(attribute, '.');
      next := next + |attribute[tmp..]|;
    } else if attribute == [] && '.' in elementName {
      attribute := elementName;
      next := next + |attribute[propertyNameIndex..]|;
    }
    c := Candidate(attribute, next, propertyNameIndex);
  }

  /** What `GetInfo` returns (or throws) for a snapshot. */
  function Infos(snap: Snapshot, rc: ContextResolver): Result<seq<HighlightingInfo>, ArgumentError>
  {
    Scan(snap, rc, -1)
  }

  /**
   * `GetInfo`: a do-while loop over the line text that jumps to the next '='
   * or '.', asks for the context there and records an info per accepted
   * candidate. A constructor exception ends the scan with that exception.
   */
  method GetInfo(snap: Snapshot, rc: ContextResolver) returns (r: Result<seq<HighlightingInfo>, ArgumentError>)
    ensures r == Infos(snap, rc)
  {
    var lineText := snap.lineText;
    var index := -1;
    var infos: seq<HighlightingInfo> := [];
    PrependNothing(Infos(snap, rc));
    while true
      invariant index >= -1
      invariant Infos(snap, rc) == Prepend(infos, Scan(snap, rc, index))
      decreases |lineText| - index
    {
      if index + 1 >= |lineText| {
        PrependToNothing(infos);
        break;
      }
      ghost var previous := index;
      index := IndexOfAny(lineText, index + 1, '=', '.');
      if index > -1 {
        var context := rc(snap.fileContent, snap.fileName, snap.lineNumber, index);
        var candidate := QualifyAt(context, index);
        index := candidate.index;
        ScanAt(snap, rc, previous);
        if !context.inComment && candidate.attribute != [] {
          var info := SpanInfo(snap, context, candidate);
          if info.Failure? {
            return Failure(info.error);
          }
          PrependTwice(infos, [info.value], Scan(snap, rc, index));
          infos := infos + [info.value];
        } else {
          assert Emit(snap, context, candidate) == None;
        }
      } else {
        PrependToNothing(infos);
        break;
      }
    }
    r := Success(infos);
  }

  /**
   * Termination bound of the scan: every emitted info uses up a distinct
   * candidate position after the index, so there are at most as many infos
   * as characters left after it.
   */
  lemma {:induction false} ScanLength(snap: Snapshot, rc: ContextResolver, index: int)
    requires index >= -1
    ensures Scan(snap, rc, index).Success? ==>
      |Scan(snap, rc, index).value| <= if index + 1 < |snap.lineText| then |snap.lineText| - 1 - index else 0
    decreases |snap.lineText| - index
  {
    if index + 1 < |snap.lineText| {
      var pos := IndexOfAny(snap.lineText, index + 1, '=', '.');
      if pos != -1 {
        var ctx := rc(snap.fileContent, snap.fileName, snap.lineNumber, pos);
        ScanLength(snap, rc, Qualify(ctx, pos).index);
      }
    }
  }

  /**
   * Every info the scan emits comes from a position outside a comment and
   * carries the snapshot's line offset.
   */
  lemma {:induction false} ScanInfos(snap: Snapshot, rc: ContextResolver, index: int)
    requires index >= -1
    ensures Scan(snap, rc, index).Success? ==>
      forall info :: info in Scan(snap, rc, index).value ==>
        !info.context.inComment && info.lineOffset == snap.offset
    decreases |snap.lineText| - index
  {
    if index + 1 < |snap.lineText| {
      var pos := IndexOfAny(snap.lineText, index + 1, '=', '.');
      if pos != -1 {
        var ctx := rc(snap.fileContent, snap.fileName, snap.lineNumber, pos);
        ScanInfos(snap, rc, Qualify(ctx, pos).index);
      }
    }
  }

  /** The name a context yields for a token: its attribute, or with none, its element name. */
  function ScannedName(ctx: XamlContext): string
  {
    if AttributeOf(ctx) != [] then AttributeOf(ctx) else ctx.activeElement
  }

  /**
   * Where an info's span lies in the line it was scanned from. Without a '.'
   * in the element name the token is the scanned name and its span is an
   * occurrence of it in the line. With one, the token is the name without
   * '/' at its ends, and the span runs from just after the element name's
   * '.' (counted from an occurrence of the name, or from -1 when the name
   * was not found) to the end of the name without trailing '/'.
   */
  predicate SpanMatches(line: string, info: HighlightingInfo)
  {
    var name := ScannedName(info.context);
    var dot := IndexOf(info.context.activeElement, '.');
    if dot == -1 then
      && info.token == name
      && info.startOffset + |name| == info.endOffset <= |line|
      && line[info.startOffset..info.endOffset] == name
    else
      var k := info.startOffset - dot - 1;
      && info.token == Trim(name, '/')
      && k >= -1
      && (k == -1 || OccursAt(line, name, k))
      && info.endOffset == k + |TrimEnd(name, '/')|
  }

  /** A successful `SpanInfo` lies where `SpanMatches` says, given the candidate's name and '.' position. */
  lemma SpanInfoMatches(snap: Snapshot, ctx: XamlContext, c: Candidate)
    requires c.index >= 0 && c.attribute != []
    requires c.attribute == ScannedName(ctx) && c.propertyNameIndex == IndexOf(ctx.activeElement, '.')
    requires SpanInfo(snap, ctx, c).Success?
    ensures SpanMatches(snap.lineText, SpanInfo(snap, ctx, c).value)
  {
    var info := SpanInfo(snap, ctx, c).value;
    assert info.context == ctx;
    if c.propertyNameIndex != -1 {
      assert info.startOffset - c.propertyNameIndex - 1 == AttributeStart(snap, c);
    }
  }

  /** The info a candidate position emits lies where `SpanMatches` says. */
  lemma EmittedSpan(snap: Snapshot, ctx: XamlContext, pos: nat)
    ensures Emit(snap, ctx, Qualify(ctx, pos)).Some? && Emit(snap, ctx, Qualify(ctx, pos)).value.Success? ==>
      SpanMatches(snap.lineText, Emit(snap, ctx, Qualify(ctx, pos)).value.value)
  {
    var c := Qualify(ctx, pos);
    if !ctx.inComment && c.attribute != [] {
      var r := SpanInfo(snap, ctx, c);
      if r.Success? {
        assert c.attribute == ScannedName(ctx);
        SpanInfoMatches(snap, ctx, c);
      }
    }
  }

  /** Every info the scan emits lies in the line where `SpanMatches` says. */
  lemma {:induction false} ScanSpans(snap: Snapshot, rc: ContextResolver, index: int)
    requires index >= -1
    ensures Scan(snap, rc, index).Success? ==>
      forall info :: info in Scan(snap, rc, index).value ==> SpanMatches(snap.lineText, info)
    decreases |snap.lineText| - index
  {
    if index + 1 < |snap.lineText| {
      var pos := IndexOfAny(snap.lineText, index + 1, '=', '.');
      if pos != -1 {
        var ctx := rc(snap.fileContent, snap.fileName, snap.lineNumber, pos);
        EmittedSpan(snap, ctx, pos);
        ScanSpans(snap, rc, Qualify(ctx, pos).index);
      }
    }
  }

  /**
   * The scan never passes a null token or context: the only exception it
   * can end with is an out-of-range offset, and with a non-negative line
   * offset that is the start or end of a span before the line's start.
   */
  lemma {:induction false} ScanErrors(snap: Snapshot, rc: ContextResolver, index: int)
    requires index >= -1
    ensures Scan(snap, rc, index).Failure? ==> Scan(snap, rc, index).error.ArgumentOutOfRange?
    ensures Scan(snap, rc, index).Failure? && snap.offset >= 0 ==>
      Scan(snap, rc, index).error.paramName in {"startOffset", "endOffset"}
    decreases |snap.lineText| - index
  {
    if index + 1 < |snap.lineText| {
      var pos := IndexOfAny(snap.lineText, index + 1, '=', '.');
      if pos != -1 {
        var ctx := rc(snap.fileContent, snap.fileName, snap.lineNumber, pos);
        ScanErrors(snap, rc, Qualify(ctx, pos).index);
      }
    }
  }

  /** The highlight for one info: no member for an `xmlns` token, otherwise whatever the resolver finds. */
  function Resolved(info: HighlightingInfo, fileContent: string, rm: MemberResolver): Highlight
  {
    Highlight(if "xmlns" <= info.token then None else rm(info, fileContent), info)
  }

  function ResolveAll(infos: seq<HighlightingInfo>, fileContent: string, rm: MemberResolver): seq<Highlight>
  {
    seq(|infos|, i requires 0 <= i < |infos| => Resolved(infos[i], fileContent, rm))
  }

  /**
   * The foreach loop of `Process`: one highlight per info, in the same
   * order; a token starting with "xmlns" is not resolved and gets no member.
   */
  method ResolveInfos(infos: seq<HighlightingInfo>, fileContent: string, rm: MemberResolver)
    returns (results: seq<Highlight>)
    ensures |results| == |infos|
    ensures forall i :: 0 <= i < |infos| ==> results[i].info == infos[i]
    ensures forall i :: 0 <= i < |infos| && "xmlns" <= infos[i].token ==> results[i].member == None
    ensures forall i :: 0 <= i < |infos| && !("xmlns" <= infos[i].token) ==>
      results[i].member == rm(infos[i], fileContent)
  {
    results := [];
    for i := 0 to |infos|
      invariant |results| == i
      invariant forall j :: 0 <= j < i ==> results[j] == Resolved(infos[j], fileContent, rm)
    {
      var info := infos[i];
      var member := None;
      if !("xmlns" <= info.token) {
        member := rm(info, fileContent);
      }
      results := results + [Highlight(member, info)];
    }
  }

  /** What a task run publishes for a snapshot: its infos, each resolved; or the scan's exception. */
  function Highlights(snap: Snapshot, rc: ContextResolver, rm: MemberResolver): Result<seq<Highlight>, ArgumentError>
  {
    match Infos(snap, rc)
    case Success(infos) => Success(ResolveAll(infos, snap.fileContent, rm))
    case Failure(e) => Failure(e)
  }
}
