/**
 * Cell values, their normalization into typed index columns, and the comparison of the two stored
 * projections.
 */
module Values {
  import opened Wrappers
  import opened Text
  import opened Calendar
  import D = Decimals

  /** The text of a float is never blank and carries no outer space. */
  type FloatText = s: string | s != "" && Trimmed(s) witness "0.0"

  /** A JSON scalar; a float is known by the text str gives it. */
  datatype Scalar =
    | Null
    | Bool(flag: bool)
    | Int(number: int)
    | Float(repr: FloatText)
    | Str(text: string)

  /** str(value) */
  function PyText(v: Scalar): string {
    match v
    case Null => "None"
    case Bool(b) => if b then "True" else "False"
    case Int(n) => IntText(n)
    case Float(r) => r
    case Str(s) => s
  }

  /** A semantic field's data type; nothing normalizes to a type outside the six known ones. */
  datatype DataType =
    TextType | IntegerType | DecimalType | BooleanType | DateType | DateTimeType | Unsupported(name: string)

  datatype Typed =
    | TText(text: string)
    | TInteger(number: int)
    | TDecimal(decimal: D.Decimal)
    | TBoolean(flag: bool)
    | TDate(date: Date)
    | TDateTime(moment: DateTime)

  /** _json_value: what the semantic projection stores for a normalized value. */
  function JsonValue(v: Typed): Scalar {
    match v
    case TText(s) => Str(s)
    case TInteger(n) => Int(n)
    case TDecimal(d) => Str(D.ToText(d))
    case TBoolean(b) => Bool(b)
    case TDate(d) => Str(DateText(d))
    case TDateTime(t) => Str(DateTimeText(t))
  }

  const INVISIBLE: set<char> := {'\U{200B}', '\U{200C}', '\U{200D}', '\U{2060}', '\U{FEFF}'}

  function NumericText(v: Scalar): string {
    Strip(Remove(Remove(PyText(v), INVISIBLE), {','}))
  }

  predicate IsBlank(v: Scalar) {
    v.Null? || (v.Str? && Blank(v.text))
  }

  predicate IsPresent(v: Scalar) {
    !IsBlank(v)
  }

  /** How normalization ends: a value, MaterializationError, or the OverflowError nothing catches. */
  datatype Normalized =
    | Normal(normalizer: string, value: Option<Typed>)
    | Rejected
    | Overflow

  const TRUE_WORDS: set<string> := {"true", "1", "是", "有", "yes"}
  const FALSE_WORDS: set<string> := {"false", "0", "否", "无", "no"}

  /** _normalized_value */
  function Normalize(dataType: DataType, v: Scalar): Normalized {
    if IsBlank(v) then Normal("empty/v1", None)
    else if dataType == TextType then Normal("text/v1", Some(TText(Strip(PyText(v)))))
    else if dataType == IntegerType then NormalizeInteger(D.Parse(NumericText(v)))
    else if dataType == DecimalType then NormalizeDecimal(D.Parse(NumericText(v)))
    else if dataType == BooleanType then NormalizeWord(Lower(Strip(PyText(v))))
    else if dataType == DateType then NormalizeDate(ParseDate(Strip(PyText(v))))
    else if dataType == DateTimeType then NormalizeDateTime(ParseDateTime(Strip(PyText(v))))
    else Rejected
  }

  function NormalizeDecimal(d: Option<D.Decimal>): Normalized {
    match d
    case None => Rejected
    case Some(x) =>
      match D.Normalize(x)
      case None => Rejected
      case Some(n) => Normal("decimal/v1", Some(TDecimal(n)))
  }

  function NormalizeWord(word: string): Normalized {
    if word in TRUE_WORDS then Normal("boolean/v1", Some(TBoolean(true)))
    else if word in FALSE_WORDS then Normal("boolean/v1", Some(TBoolean(false)))
    else Rejected
  }

  function NormalizeDate(d: Option<Date>): Normalized {
    match d
    case None => Rejected
    case Some(x) => Normal("date-iso/v1", Some(TDate(x)))
  }

  function NormalizeDateTime(t: Option<DateTime>): Normalized {
    match t
    case None => Rejected
    case Some(x) => Normal("datetime-iso/v1", Some(TDateTime(x)))
  }

  /** int(Decimal) after the integrality test; an infinite value passes the test and int() overflows. */
  function NormalizeInteger(d: Option<D.Decimal>): Normalized {
    match d
    case None => Rejected
    case Some(NotANumber) => Rejected
    case Some(Infinite(_)) => Overflow
    case Some(Finite(negative, c, e)) =>
      if e >= 0 then Normal("integer/v1", Some(TInteger(D.Signed(negative, c * Pow10(e)))))
      else
        var (whole, part) := D.Divide(c, Pow10(-e));
        if part != 0 then Rejected else Normal("integer/v1", Some(TInteger(D.Signed(negative, whole))))
  }

  function TypeOf(v: Typed): DataType {
    match v
    case TText(_) => TextType
    case TInteger(_) => IntegerType
    case TDecimal(_) => DecimalType
    case TBoolean(_) => BooleanType
    case TDate(_) => DateType
    case TDateTime(_) => DateTimeType
  }

  /** A value normalization can give: decimals are quantized, dates and datetimes valid. */
  predicate Storable(v: Typed) {
    match v
    case TDecimal(d) => d.Finite? && d.exponent == -D.SCALE
    case TDate(d) => ValidDate(d)
    case TDateTime(t) => ValidDateTime(t)
    case _ => true
  }

  /** A present value normalizes to a storable value of the requested type; only unknown types have none. */
  lemma NormalizeTyped(dataType: DataType, v: Scalar)
    requires Normalize(dataType, v).Normal?
    ensures Normalize(dataType, v).value.None? <==> IsBlank(v)
    ensures Normalize(dataType, v).value.Some? ==>
              TypeOf(Normalize(dataType, v).value.value) == dataType && Storable(Normalize(dataType, v).value.value)
  {
    hide PyText, NumericText, Strip, Lower, ParseDate, ParseDateTime, D.Parse, D.Normalize, ValidDate, ValidDateTime;
    if IsPresent(v) {
      match dataType {
        case IntegerType => assert NormalizeInteger(D.Parse(NumericText(v))).Normal?;
        case DecimalType => DecimalNormalizesFinite(D.Parse(NumericText(v)).value);
        case DateType => ParsedDateIsValid(Strip(PyText(v)));
        case DateTimeType => ParsedDateTimeIsValid(Strip(PyText(v)));
        case _ =>
      }
    }
  }

  lemma ParsedDateIsValid(s: string)
    requires ParseDate(s).Some?
    ensures ValidDate(ParseDate(s).value)
  {
    hide AllDigits, DigitsValue;
  }

  /** The OverflowError escapes for exactly one kind of cell: an integer field that reads as infinite. */
  lemma OnlyInfinityOverflows(dataType: DataType, v: Scalar)
    ensures Normalize(dataType, v) == Overflow <==>
              dataType == IntegerType && IsPresent(v) &&
              D.Parse(NumericText(v)).Some? && D.Parse(NumericText(v)).value.Infinite?
  {
  }

  // ----- the stored semantic value normalizes to the indexed value -----

  lemma CleanNumeric(s: string)
    requires Trimmed(s)
    requires forall i :: 0 <= i < |s| ==> s[i] !in INVISIBLE && s[i] != ','
    ensures NumericText(Str(s)) == s
  {
    RemoveNothing(s, INVISIBLE);
    RemoveNothing(s, {','});
    StripTrims(s);
  }

  lemma CleanNumber(s: string)
    requires D.NumberText(s) && Trimmed(s)
    ensures NumericText(Str(s)) == s
  {
    CleanNumeric(s);
  }

  lemma IntTextNumber(n: int)
    ensures D.NumberText(IntText(n)) && IntText(n) != ""
    ensures D.Parse(IntText(n)) == Some(D.Finite(n < 0, if n < 0 then -n else n, 0))
  {
    var m: nat := if n < 0 then -n else n;
    D.TextRoundTrip(D.Finite(n < 0, m, 0));
    assert D.Magnitude(NatText(m), 0) == NatText(m) + Zeros(0) + "";
    assert NatText(m) + Zeros(0) + "" == NatText(m);
    assert D.ToText(D.Finite(n < 0, m, 0)) == IntText(n);
  }

  /**
   * Normalizing the value shown in the semantic projection gives back the value in the typed index,
   * for every data type: an equality filter on a displayed value compares with the indexed one.
   */
  lemma RenormalizingReturnsTheIndexedValue(dataType: DataType, v: Scalar)
    requires Normalize(dataType, v).Normal? && Normalize(dataType, v).value.Some?
    ensures Normalize(dataType, JsonValue(Normalize(dataType, v).value.value)) == Normalize(dataType, v)
  {
    hide Strip, PyText, NumericText, Lower, ParseDate, ParseDateTime, D.Parse, D.Normalize;
    var t := Normalize(dataType, v).value.value;
    match dataType {
      case TextType => TextRenormalizes(v);
      case IntegerType => IntegerRenormalizes(t.number);
      case DecimalType => DecimalRenormalizes(D.Parse(NumericText(v)).value);
      case BooleanType => BooleanRenormalizes(t.flag);
      case DateType => DateRenormalizes(Strip(PyText(v)));
      case DateTimeType => DateTimeRenormalizes(Strip(PyText(v)));
    }
  }

  lemma TextRenormalizes(v: Scalar)
    requires IsPresent(v)
    ensures Normalize(TextType, Str(Strip(PyText(v)))) == Normalize(TextType, v)
  {
    hide StripLeft, StripRight;
    TextIsPresent(v);
    StripTrims(PyText(v));
    StripTrims(Strip(PyText(v)));
  }

  /** A non-empty trimmed text is present and is its own stripped form. */
  lemma TrimmedText(s: string)
    requires Trimmed(s) && s != ""
    ensures IsPresent(Str(s)) && Strip(PyText(Str(s))) == s
  {
    StripTrims(s);
  }

  lemma DateRenormalizes(s: string)
    requires ParseDate(s).Some?
    ensures var d := ParseDate(s).value;
            Normalize(DateType, Str(DateText(d))) == Normal("date-iso/v1", Some(TDate(d)))
  {
    var d := ParseDate(s).value;
    assert ValidDate(d);
    hide DateText, ParseDate, Normalize, ValidDate, Trimmed;
    DateTextParses(d);
    ReadsAsDate(DateText(d), d);
  }

  lemma ReadsAsDate(s: string, d: Date)
    requires ParseDate(s) == Some(d) && Trimmed(s) && s != ""
    ensures Normalize(DateType, Str(s)) == Normal("date-iso/v1", Some(TDate(d)))
  {
    hide ParseDate, Strip, PyText, Trimmed;
    TrimmedText(s);
  }

  lemma DateTimeRenormalizes(s: string)
    requires ParseDateTime(s).Some?
    ensures var t := ParseDateTime(s).value;
            Normalize(DateTimeType, Str(DateTimeText(t))) == Normal("datetime-iso/v1", Some(TDateTime(t)))
  {
    ParsedDateTimeIsValid(s);
    var t := ParseDateTime(s).value;
    hide DateTimeText, ParseDateTime, Normalize, ValidDateTime, Trimmed;
    DateTimeTextParses(t);
    ReadsAsDateTime(DateTimeText(t), t);
  }

  lemma ReadsAsDateTime(s: string, t: DateTime)
    requires ParseDateTime(s) == Some(t) && Trimmed(s) && s != ""
    ensures Normalize(DateTimeType, Str(s)) == Normal("datetime-iso/v1", Some(TDateTime(t)))
  {
    hide ParseDateTime, Strip, PyText, Trimmed;
    TrimmedText(s);
  }

  lemma ParsedDateTimeIsValid(s: string)
    requires ParseDateTime(s).Some?
    ensures ValidDateTime(ParseDateTime(s).value)
  {
    hide ParseDate, ParseClock, ParseOffset, AllDigits, DigitsValue;
  }

  lemma TextIsPresent(v: Scalar)
    requires IsPresent(v)
    ensures !Blank(Strip(PyText(v)))
  {
    StripTrims(PyText(v));
    StripTrims(Strip(PyText(v)));
    match v {
      case Int(n) =>
        IntTextNumber(n);
        StripTrims(IntText(n));
      case Float(r) => StripTrims(r);
      case _ =>
    }
  }

  lemma BooleanRenormalizes(b: bool)
    ensures Normalize(BooleanType, Bool(b)) == Normal("boolean/v1", Some(TBoolean(b)))
  {
    StripTrims("True");
    StripTrims("False");
    assert Lower("True") == "true" && Lower("False") == "false";
  }

  lemma IntegerRenormalizes(n: int)
    ensures Normalize(IntegerType, Int(n)) == Normal("integer/v1", Some(TInteger(n)))
  {
    hide IntText, NumericText, D.Parse;
    IntTextNumber(n);
    IntReadsAsItsText(n);
    assert Pow10(0) == 1;
  }

  lemma IntReadsAsItsText(n: int)
    requires D.NumberText(IntText(n))
    ensures NumericText(Int(n)) == IntText(n)
  {
    CleanNumeric(IntText(n));
  }

  lemma DecimalRenormalizes(d: D.Decimal)
    requires D.Normalize(d).Some?
    ensures Normalize(DecimalType, JsonValue(TDecimal(D.Normalize(d).value)))
         == Normal("decimal/v1", Some(TDecimal(D.Normalize(d).value)))
  {
    var n := D.Normalize(d).value;
    D.NormalizeIdempotent(d);
    DecimalNormalizesFinite(d);
    hide D.ToText, D.Parse, D.Normalize, Normalize;
    D.TextRoundTrip(n);
    D.TextChars(n);
    ReadsAsDecimal(D.ToText(n), n);
  }

  lemma ReadsAsDecimal(s: string, d: D.Decimal)
    requires D.NumberText(s) && Trimmed(s) && s != ""
    requires D.Parse(s) == Some(d) && D.Normalize(d) == Some(d)
    ensures Normalize(DecimalType, Str(s)) == Normal("decimal/v1", Some(TDecimal(d)))
  {
    hide D.NumberText, D.Parse, D.Normalize, NumericText, Strip, PyText, Trimmed;
    CleanNumber(s);
    TrimmedText(s);
  }

  // ----- typed columns -----

  /** The six typed columns of an index row: the data type names the one that is set. */
  type Columns = map<DataType, Typed>

  /** _typed_values */
  function TypedColumns(dataType: DataType, v: Option<Typed>): Columns {
    if v.Some? then map[dataType := v.value] else map[]
  }

  function Column(columns: Columns, dataType: DataType): Option<Typed> {
    if dataType in columns then Some(columns[dataType]) else None
  }

  /** A typed value as its column returns it: a datetime comes back aware. */
  function ReadValue(zone: Zone, v: Typed): Typed {
    if v.TDateTime? then TDateTime(zone(v.moment)) else v
  }

  function ReadColumns(zone: Zone, columns: Columns): Columns {
    map k | k in columns :: ReadValue(zone, columns[k])
  }

  /** A value its column returns as it was: anything but a datetime without an offset. */
  predicate Zoned(v: Typed) {
    v.TDateTime? ==> v.moment.offset.Some?
  }

  /** _values_equal: does the semantic value denote the indexed one? */
  predicate ValuesEqual(dataType: DataType, semantic: Scalar, index: Option<Typed>) {
    if semantic.Null? || index.None? then semantic.Null? && index.None?
    else if dataType == DecimalType then
      match (D.Parse(PyText(semantic)), D.Parse(PyText(JsonValue(index.value))))
      case (Some(a), Some(b)) => D.Equal(a, b)
      case _ => false
    else if dataType == DateType && index.value.TDate? then PyText(semantic) == DateText(index.value.date)
    else if dataType == DateTimeType && index.value.TDateTime? then
      var read := ParseDateTime(ZuluAsOffset(PyText(semantic)));
      read.Some? && SameMoment(read.value, index.value.moment)
    else PyEquals(semantic, JsonValue(index.value))
  }

  /** Python equality of scalars: booleans are the integers 0 and 1, and an integer may equal a float. */
  predicate PyEquals(a: Scalar, b: Scalar) {
    a == b || (a.Bool? && b.Int? && b.number == (if a.flag then 1 else 0))
           || (a.Int? && b.Bool? && a.number == (if b.flag then 1 else 0))
           || (a.Int? && b.Float? && FloatIs(b.repr, a.number))
           || (a.Float? && b.Int? && FloatIs(a.repr, b.number))
  }

  /** The float of a text is an integer: the text denotes it, and a double can. */
  predicate FloatIs(text: string, n: int) {
    hide D.Parse;
    match D.Parse(text)
    case Some(Finite(negative, c, e)) =>
      IsDouble(Size(n)) && if e >= 0 then D.Signed(negative, c * Pow10(e)) == n else D.Signed(negative, c) == n * Pow10(-e)
    case _ => false
  }

  function Size(n: int): nat {
    if n < 0 then -n else n
  }

  /** A double has 53 significant bits. */
  predicate IsDouble(n: nat) {
    n <= 0x20_0000_0000_0000 || (n % 2 == 0 && IsDouble(n / 2))
  }

  /** The integer a float's text spells out, if it is in the notation Python uses from ten to the 16th on. */
  function WholeOf(text: string): Option<int> {
    hide D.Parse;
    match D.Parse(text)
    case Some(Finite(negative, c, e)) => if e >= 0 then Some(D.Signed(negative, c * Pow10(e))) else None
    case _ => None
  }

  /** A scalar as a jsonb column returns it: such a float comes back as its digits, an integer. */
  function Jsonb(v: Scalar): Scalar {
    if v.Float? && WholeOf(v.repr).Some? then Int(WholeOf(v.repr).value) else v
  }

  /** The column returns an equal value exactly if a float so written is the double it denotes in digits. */
  lemma JsonbReturnsWhen(v: Scalar)
    ensures PyEquals(Jsonb(v), v) <==> (v.Float? && WholeOf(v.repr).Some? ==> IsDouble(Size(WholeOf(v.repr).value)))
  {
    hide D.Parse, IsDouble, Pow10;
  }

  function ZuluAsOffset(s: string): string {
    if s == "" then "" else (if s[0] == 'Z' then "+00:00" else [s[0]]) + ZuluAsOffset(s[1..])
  }

  lemma {:induction false} NoZulu(s: string)
    requires 'Z' !in s
    ensures ZuluAsOffset(s) == s
  {
    if s != "" {
      NoZulu(s[1..]);
    }
  }

  /**
   * The auditor accepts the two projections of one value, the typed one as its column returns it, exactly
   * if the value is not a datetime without an offset.
   */
  lemma ProjectionsAgree(dataType: DataType, v: Scalar, zone: Zone)
    requires Normalize(dataType, v).Normal? && Normalize(dataType, v).value.Some? && Keeps(zone)
    ensures var t := Normalize(dataType, v).value.value;
            ValuesEqual(dataType, JsonValue(t), Column(ReadColumns(zone, TypedColumns(dataType, Some(t))), dataType)) <==> Zoned(t)
  {
    hide SameMoment, Keeps;
    hide Strip, PyText, NumericText, Lower, ParseDate, D.Parse, D.Normalize, D.ToText, DateText;
    var t := Normalize(dataType, v).value.value;
    match dataType {
      case DecimalType =>
        DecimalNormalizesFinite(D.Parse(NumericText(v)).value);
        DecimalsAgree(t.decimal);
      case DateTimeType =>
        ParsedDateTimeIsValid(Strip(PyText(v)));
        DateTimesAgree(t.moment, zone);
      case DateType => DatesAgree(t.date);
      case _ =>
    }
  }

  lemma DecimalNormalizesFinite(d: D.Decimal)
    requires D.Normalize(d).Some?
    ensures D.Normalize(d).value.Finite? && D.Normalize(d).value.exponent == -D.SCALE
  {
  }

  lemma DecimalsAgree(d: D.Decimal)
    requires d.Finite?
    ensures ValuesEqual(DecimalType, JsonValue(TDecimal(d)), Some(TDecimal(d)))
  {
    hide D.ToText, D.Parse;
    D.TextRoundTrip(d);
  }

  lemma DatesAgree(d: Date)
    ensures ValuesEqual(DateType, JsonValue(TDate(d)), Some(TDate(d)))
  {
    hide DateText;
  }

  /** A naive text read next to an aware column is a different value. */
  lemma DateTimesAgree(t: DateTime, zone: Zone)
    requires ValidDateTime(t) && Keeps(zone)
    ensures ValuesEqual(DateTimeType, JsonValue(TDateTime(t)), Some(TDateTime(zone(t)))) <==> t.offset.Some?
  {
    hide DateTimeText, ParseDateTime, SameMoment, Keeps;
    ReadMoment(zone, t);
    DateTimeTextParses(t);
    DateTimeChars(t);
    NoZulu(DateTimeText(t));
  }

  lemma DateTimeChars(t: DateTime)
    ensures 'Z' !in DateTimeText(t)
  {
    hide Fixed;
    NoZuluInDigits();
  }

  lemma NoZuluInDigits()
    ensures forall n, w :: 'Z' !in Fixed(n, w)
  {
  }
}
