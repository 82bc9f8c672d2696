/**
 * Two lines scanned end to end, with a resolver that reports the same
 * context everywhere on the line: the qualifier rule's two cases.
 */
module ScanExamples {
  import opened Wrappers
  import opened Text
  import opened Highlighting
  import opened TokenScan

  const GridRowText: string := "<Button Grid.Row=\"1\"/>"
  const GridRowContext := XamlContext("Button", Some("Grid.Row"), false, [], "mc")
  const GridRowSnapshot := Snapshot("", "", 1, GridRowText, 0)

  lemma GridRowFirst()
    ensures IndexOfAny(GridRowText, 0, '=', '.') == 12
  {
    assert GridRowText[12] == '.';
    assert forall i :: 0 <= i < 12 ==> GridRowText[i] != '=' && GridRowText[i] != '.';
  }

  lemma GridRowRest()
    ensures IndexOfAny(GridRowText, 17, '=', '.') == -1
  {
    assert forall i :: 17 <= i < |GridRowText| ==> GridRowText[i] != '=' && GridRowText[i] != '.';
  }

  lemma GridRowDots()
    ensures IndexOf("Grid.Row", '.') == 4
    ensures IndexOf("Button", '.') == -1
  {
    var attribute: string := "Grid.Row";
    assert attribute[4] == '.';
    assert forall i :: 0 <= i < 4 ==> attribute[i] != '.';
    var element: string := "Button";
    assert element == ['B', 'u', 't', 't', 'o', 'n'];
  }

  lemma GridRowQualify()
    ensures Qualify(GridRowContext, 12) == Candidate("Grid.Row", 16, -1)
  {
    GridRowDots();
  }

  lemma GridRowSpan()
    ensures SpanInfo(GridRowSnapshot, GridRowContext, Candidate("Grid.Row", 16, -1))
      == Success(HighlightingInfo("Grid.Row", 8, 16, 0, GridRowContext))
  {
    var s := GridRowText[..16];
    assert forall i :: 0 <= i < 8 ==> s[8 + i] == "Grid.Row"[i];
    assert s[8..16] == "Grid.Row";
    assert OccursAt(s, "Grid.Row", 8);
    assert LastIndexOf(s, "Grid.Row") == 8;
  }

  /**
   * A dotted attribute (attached-property syntax): one info spanning the
   * whole name; the scan resumes at the '=' after it, so the '=' does not
   * report the attribute a second time.
   */
  lemma GridRowScan()
    ensures Infos(GridRowSnapshot, (fc: string, fn: string, l: int, c: int) => GridRowContext)
      == Success([HighlightingInfo("Grid.Row", 8, 16, 0, GridRowContext)])
  {
    var rc := (fc: string, fn: string, l: int, c: int) => GridRowContext;
    GridRowFirst();
    GridRowRest();
    GridRowQualify();
    GridRowSpan();
    assert Scan(GridRowSnapshot, rc, 16) == Success([]);
    ScanAt(GridRowSnapshot, rc, -1);
    PrependToNothing([HighlightingInfo("Grid.Row", 8, 16, 0, GridRowContext)]);
  }

  const PropertyElementText: string := "<Grid.ColumnDefinitions>"
  const PropertyElementName: string := "Grid.ColumnDefinitions"
  const PropertyElementContext := XamlContext(PropertyElementName, None, false, [], "mc")
  const PropertyElementSnapshot := Snapshot("", "", 1, PropertyElementText, 0)

  lemma PropertyElementFirst()
    ensures IndexOfAny(PropertyElementText, 0, '=', '.') == 5
  {
    assert PropertyElementText[5] == '.';
    assert forall i :: 0 <= i < 5 ==> PropertyElementText[i] != '=' && PropertyElementText[i] != '.';
  }

  lemma PropertyElementDot()
    ensures IndexOf(PropertyElementName, '.') == 4
  {
    var name := PropertyElementName;
    assert name[4] == '.';
    assert forall i :: 0 <= i < 4 ==> name[i] != '.';
  }

  lemma PropertyElementNameFacts()
    ensures IndexOf(PropertyElementName, '.') == 4
    ensures Trim(PropertyElementName, '/') == PropertyElementName
    ensures TrimEnd(PropertyElementName, '/') == PropertyElementName
  {
    PropertyElementDot();
    var name := PropertyElementName;
    assert name[0] != '/' && name[|name| - 1] != '/';
    assert TrimStart(name, '/') == name;
  }

  lemma PropertyElementQualify()
    ensures Qualify(PropertyElementContext, 5) == Candidate(PropertyElementName, 23, 4)
  {
    PropertyElementNameFacts();
  }

  lemma PropertyElementStart()
    ensures LastIndexOf(PropertyElementText[..23], PropertyElementName) == 1
  {
    var s := PropertyElementText[..23];
    assert forall i :: 0 <= i < 22 ==> s[1 + i] == PropertyElementName[i];
    assert s[1..23] == PropertyElementName;
    assert OccursAt(s, PropertyElementName, 1);
  }

  lemma PropertyElementSpan()
    ensures SpanInfo(PropertyElementSnapshot, PropertyElementContext, Candidate(PropertyElementName, 23, 4))
      == Success(HighlightingInfo(PropertyElementName, 6, 23, 0, PropertyElementContext))
  {
    PropertyElementNameFacts();
    PropertyElementStart();
  }

  /**
   * A dotted element name with no attribute (property-element syntax): one
   * info whose span covers only the property part after the '.'.
   */
  lemma PropertyElementScan()
    ensures Infos(PropertyElementSnapshot, (fc: string, fn: string, l: int, c: int) => PropertyElementContext)
      == Success([HighlightingInfo(PropertyElementName, 6, 23, 0, PropertyElementContext)])
  {
    var rc := (fc: string, fn: string, l: int, c: int) => PropertyElementContext;
    PropertyElementFirst();
    PropertyElementQualify();
    PropertyElementSpan();
    assert Scan(PropertyElementSnapshot, rc, 23) == Success([]);
    ScanAt(PropertyElementSnapshot, rc, -1);
    PrependToNothing([HighlightingInfo(PropertyElementName, 6, 23, 0, PropertyElementContext)]);
  }
}
