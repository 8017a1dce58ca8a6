/** Executions of one cell that the audit rejects. */
module AuditExamples {
  import opened Wrappers
  import opened Text
  import opened Calendar
  import opened Dicts
  import opened Values
  import opened Records
  import opened RawEvidence
  import opened Layouts
  import opened Emission
  import opened ImportRuns
  import opened ImportProperties
  import opened AuditConditions

  const PLACE := (1, 1)

  /** A mapping of the first physical column to version 1 of field `f`, under some role. */
  function MappingTo(role: string): Mapping {
    Mapping("c", [], "f", 1, role, false, Some(Selector("physical_column", 0, 1)))
  }

  function OneCell(v: Scalar): Cell {
    Cell("cell", 1, 1, "A1", v, v)
  }

  function OneCellGrid(v: Scalar): (g: Grid)
    ensures ValidGrid(g)
  {
    Put(Empty(), PLACE, OneCell(v))
  }

  /** A headerless sheet of one row with one cell. */
  function OneCellSection(role: string, v: Scalar): Section {
    Section("s", "headerless_table", "",
            Region(OneCellGrid(v), Range(1, 1, 1, 1, {}), [], [Bound(MappingTo(role), 1)], _ => false),
            Owner(None, None, Some("t"), Some(1), "r", []), true)
  }

  function FieldsOf(dataType: DataType): FieldTypes {
    map[("f", 1) := dataType]
  }

  lemma OneCellIsSelected(role: string, v: Scalar)
    requires IsPresent(v)
    ensures var r := OneCellSection(role, v).region;
            SelectedAt(r.grid, HeaderlessPlaces(r.bounds, 1), 1) == [(MappingTo(role), OneCell(v))]
  {
    hide IsPresent;
    var r := OneCellSection(role, v).region;
    assert CellAt(r.grid, PLACE) == Some(OneCell(v));
    assert SelectedAt(r.grid, HeaderlessPlaces(r.bounds, 1), 0) == [];
  }

  /** Its one input selects the cell. */
  lemma OneCellInput(role: string, v: Scalar)
    requires IsPresent(v)
    ensures var s := OneCellSection(role, v);
            && PlainSections([s]) && SectionMode(s) == HeaderlessTable && Inputs(HeaderlessTable, s.region).Success?
            && |Inputs(HeaderlessTable, s.region).value| == 1
            && Inputs(HeaderlessTable, s.region).value[0].selected == [(MappingTo(role), OneCell(v))]
  {
    hide IsPresent, SelectedAt, MissingAt, SelectedColumns;
    OneCellIsSelected(role, v);
    var s := OneCellSection(role, v);
    OneCellIsPlain(role, v);
    assert Rows(HeaderlessTable, s.region, 1) == Success([]);
  }

  lemma OneCellIsPlain(role: string, v: Scalar)
    ensures PlainSections([OneCellSection(role, v)])
  {
    forall id, n ensures "c" != SelectedKey(id, n) {
      assert |SelectedKey(id, n)| >= |MARK|;
    }
  }

  lemma OneCellIsKept(role: string, v: Scalar, dataType: DataType)
    requires IsPresent(v) && CellOutcome(dataType, v).Kept?
    ensures Run("h", FieldsOf(dataType), [OneCellSection(role, v)]).Success?
  {
    OneCellInput(role, v);
    hide IsPresent, CellOutcome, Inputs, Judge, Merge, IndexRows, LineageRows, IssuesOf;
    var s, fields := OneCellSection(role, v), FieldsOf(dataType);
    var inputs := Inputs(HeaderlessTable, s.region).value;
    assert [s][..0] == [] && inputs[..0] == [];
    var before: Projection := ([], 0);
    assert Project(fields, inputs[0].selected, 0) == Success(before);
    assert ProjectOne(fields, inputs[0].selected[0], before).Success?;
    assert Append(EMPTY_LOG, "h", fields, s, inputs[0]).Success?;
    assert AppendAll(EMPTY_LOG, "h", fields, s, inputs).Success?;
  }

  /** The execution of one kept cell passes the audit exactly if its role is free, its value reads back and its scalar too. */
  lemma OneCellPassesWhen(role: string, v: Scalar, dataType: DataType, zone: Zone)
    requires IsPresent(v) && CellOutcome(dataType, v).Kept? && Keeps(zone)
    ensures var run := Run("h", FieldsOf(dataType), [OneCellSection(role, v)]);
            run.Success? &&
            (AllPass(run.value, zone) <==> role != "$value" && ReadsBack(CellOutcome(dataType, v).value) && PyEquals(Jsonb(v), v))
  {
    hide IsPresent, CellOutcome, Inputs, Run, AllPass, Keeps, PlainSections, ReadsBack, PyEquals, Jsonb, FineSections, FieldsOf, OneCellSection;
    var s, fields := OneCellSection(role, v), FieldsOf(dataType);
    OneCellInput(role, v);
    OneCellIsKept(role, v, dataType);
    AllRecordsPassWhen("h", fields, [s], zone);
    PlainIsDictionary(s);
    OneCellIsFineWhen(role, v, dataType);
  }

  lemma PlainIsDictionary(s: Section)
    requires PlainSections([s])
    ensures Dictionaries([s])
  {
    hide PlainIds;
  }

  lemma OneSectionFine(fields: FieldTypes, s: Section)
    requires Dictionaries([s])
    ensures s.region.grid.Valid()
    ensures FineSections(fields, [s]) <==> FineSection(fields, s)
  {
    hide FineSection;
    assert s in [s] && [s][0] == s;
  }

  lemma OneCellIsFineWhen(role: string, v: Scalar, dataType: DataType)
    requires IsPresent(v) && CellOutcome(dataType, v).Kept? && Dictionaries([OneCellSection(role, v)])
    ensures FineSections(FieldsOf(dataType), [OneCellSection(role, v)])
       <==> role != "$value" && ReadsBack(CellOutcome(dataType, v).value) && PyEquals(Jsonb(v), v)
  {
    hide IsPresent, CellOutcome, Inputs, PlainSections, ReadsBack, PyEquals, Jsonb, FineSections;
    OneCellInput(role, v);
    var s, fields := OneCellSection(role, v), FieldsOf(dataType);
    OneSectionFine(fields, s);
    var inputs := Inputs(HeaderlessTable, s.region).value;
    assert FineInputs(fields, inputs) <==> FineSelections(fields, inputs[0].selected, 1);
    assert FineSelections(fields, inputs[0].selected, 1) <==> Fine(fields, inputs[0].selected[0]);
  }

  lemma TextReturns(text: string)
    ensures PyEquals(Jsonb(Str(text)), Str(text))
  {
  }

  /** A text mapped to the role `$value` is rejected. */
  lemma DollarRoleIsRejected(zone: Zone)
    requires Keeps(zone)
    ensures var run := Run("h", FieldsOf(TextType), [OneCellSection("$value", Str("x"))]);
            run.Success? && !AllPass(run.value, zone)
  {
    TextIsKept("x");
    hide IsPresent, CellOutcome, Keeps, Run, AllPass, OneCellSection, FieldsOf;
    OneCellPassesWhen("$value", Str("x"), TextType, zone);
  }

  lemma TextIsKept(text: string)
    requires text == "x"
    ensures IsPresent(Str(text)) && CellOutcome(TextType, Str(text)).Kept?
  {
    StripTrims(text);
    assert text[0] == 'x';
  }

  lemma DateTimeIsKept(t: DateTime)
    requires ValidDateTime(t)
    ensures IsPresent(Str(DateTimeText(t)))
    ensures CellOutcome(DateTimeType, Str(DateTimeText(t))) == Kept("datetime-iso/v1", Some(TDateTime(t)))
  {
    var text := DateTimeText(t);
    DateTimeTextParses(t);
    hide DateTimeText, ParseDateTime, Normalize, Strip, PyText, Trimmed;
    ReadsAsDateTime(text, t);
    TrimmedText(text);
  }

  /** A datetime cell passes exactly if its text has an offset; the workbook parser prints none. */
  lemma OneDateTimePassesWhen(t: DateTime, zone: Zone)
    requires ValidDateTime(t) && Keeps(zone)
    ensures var run := Run("h", FieldsOf(DateTimeType), [OneCellSection("", Str(DateTimeText(t)))]);
            run.Success? && (AllPass(run.value, zone) <==> t.offset.Some?)
  {
    hide DateTimeText, IsPresent, CellOutcome, ValidDateTime, Keeps, Run, AllPass, OneCellSection, FieldsOf;
    DateTimeIsKept(t);
    hide PyEquals, Jsonb;
    TextReturns(DateTimeText(t));
    OneCellPassesWhen("", Str(DateTimeText(t)), DateTimeType, zone);
  }

  /** A float in a text field passes exactly if it is not spelled as a whole number that is no double. */
  lemma OneFloatPassesWhen(text: FloatText, zone: Zone)
    requires Keeps(zone)
    ensures var run := Run("h", FieldsOf(TextType), [OneCellSection("", Float(text))]);
            run.Success? && (AllPass(run.value, zone) <==> (WholeOf(text).Some? ==> IsDouble(Size(WholeOf(text).value))))
  {
    FloatIsKept(text);
    JsonbReturnsWhen(Float(text));
    hide IsPresent, CellOutcome, Keeps, Run, AllPass, OneCellSection, FieldsOf, PyEquals, Jsonb, WholeOf, IsDouble;
    OneCellPassesWhen("", Float(text), TextType, zone);
  }

  lemma FloatIsKept(text: FloatText)
    ensures IsPresent(Float(text)) && CellOutcome(TextType, Float(text)).Kept?
    ensures ReadsBack(CellOutcome(TextType, Float(text)).value)
  {
    StripTrims(text);
  }
}
