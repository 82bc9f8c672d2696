/**
 * The values a scanned line produces: `HighlightingInfo` (a token span with
 * its XAML context), `Highlight` (an info with the member it resolved to),
 * and the argument checks of the `HighlightingInfo` constructor.
 */
module Highlighting {
  import opened Wrappers

  /**
   * What `CompletionDataHelper.ResolveContext` reports about a position:
   * the active element's full XML name, the attribute's full XML name (absent
   * when there is no attribute), whether the position lies in a comment, the
   * prefixes listed as ignorable (`mc:Ignorable`) and the prefix bound to the
   * markup-compatibility namespace.
   */
  datatype XamlContext = XamlContext(
    activeElement: string,
    attributeName: Option<string>,
    inComment: bool,
    ignoredXmlns: seq<string>,
    markupCompatibilityPrefix: string)

  /** A token of one line: its text, its start and end within the line, and the line's document offset. */
  datatype HighlightingInfo = HighlightingInfo(
    token: string,
    startOffset: nat,
    endOffset: nat,
    lineOffset: nat,
    context: XamlContext)

  /** The exceptions the constructor throws, with the parameter they name. */
  datatype ArgumentError =
    | ArgumentNull(paramName: string)
    | ArgumentOutOfRange(paramName: string, actualValue: int)

  /** A resolved member: only whether it is an event matters to the colorizer. */
  datatype Member = Member(name: string, isEvent: bool)

  /** `XamlColorizer.Highlight`: an info and the member it resolved to (absent for null). */
  datatype Highlight = Highlight(member: Option<Member>, info: HighlightingInfo)

  /**
   * The `HighlightingInfo` constructor. A null reference is `None`. The checks
   * run in the source's order: token, startOffset, endOffset, lineOffset,
   * context; the first that fails decides the exception.
   */
  function NewHighlightingInfo(token: Option<string>, startOffset: int, endOffset: int,
                               lineOffset: int, context: Option<XamlContext>)
    : (r: Result<HighlightingInfo, ArgumentError>)
    ensures r.Success? <==>
      token.Some? && startOffset >= 0 && endOffset >= 0 && lineOffset >= 0 && context.Some?
    ensures r.Success? ==>
      && r.value.token == token.value
      && r.value.startOffset == startOffset
      && r.value.endOffset == endOffset
      && r.value.lineOffset == lineOffset
      && r.value.context == context.value
    ensures token.None? ==> r == Failure(ArgumentNull("token"))
    ensures token.Some? && startOffset < 0 ==>
      r == Failure(ArgumentOutOfRange("startOffset", startOffset))
    ensures token.Some? && startOffset >= 0 && endOffset < 0 ==>
      r == Failure(ArgumentOutOfRange("endOffset", endOffset))
    ensures token.Some? && startOffset >= 0 && endOffset >= 0 && lineOffset < 0 ==>
      r == Failure(ArgumentOutOfRange("lineOffset", lineOffset))
    ensures token.Some? && startOffset >= 0 && endOffset >= 0 && lineOffset >= 0 && context.None? ==>
      r == Failure(ArgumentNull("context"))
  {
    if token.None? then Failure(ArgumentNull("token"))
    else if startOffset < 0 then Failure(ArgumentOutOfRange("startOffset", startOffset))
    else if endOffset < 0 then Failure(ArgumentOutOfRange("endOffset", endOffset))
    else if lineOffset < 0 then Failure(ArgumentOutOfRange("lineOffset", lineOffset))
    else if context.None? then Failure(ArgumentNull("context"))
    else Success(HighlightingInfo(token.value, startOffset, endOffset, lineOffset, context.value))
  }
}
