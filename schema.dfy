/** The record layout of a WhatsApp message log: a record is a sequence of string
    fields at fixed positions. */
module Schema {

  type Row = seq<string>

  const ChatName: nat := 0
  const Datetime: nat := 1
  const Type: nat := 2
  const PhoneNumber: nat := 3
  const Username: nat := 4
  const Text: nat := 5
  const LemmatizedText: nat := 6

  /** The named fields of the schema. */
  datatype Field = ChatNameField | DatetimeField | TypeField | PhoneNumberField
                 | UsernameField | TextField | LemmatizedTextField | DuplicateCountField

  /** The column layout in force for one run. Without lemmatization the
      lemmatizedText column is absent and duplicateCount moves down by one. */
  datatype Columns = Columns(lemmatized: bool)
  {
    /** The fields the layout has. */
    predicate Has(f: Field)
    {
      f != LemmatizedTextField || lemmatized
    }

    /** Position of a field of the layout. */
    function Position(f: Field): (p: nat)
      requires Has(f)
      ensures p < Width()
    {
      match f
      case ChatNameField => ChatName
      case DatetimeField => Datetime
      case TypeField => Type
      case PhoneNumberField => PhoneNumber
      case UsernameField => Username
      case TextField => Text
      case LemmatizedTextField => LemmatizedText
      case DuplicateCountField => if lemmatized then 7 else 6
    }

    /** Distinct fields of the layout sit at distinct positions. */
    lemma PositionsDistinct(f: Field, g: Field)
      requires Has(f) && Has(g) && f != g
      ensures Position(f) != Position(g)
    {
    }

    /** The number of named fields (`Object.keys(columnOrder).length`). */
    function Width(): nat
    {
      if lemmatized then 8 else 7
    }
  }

  /** A record long enough to read every field up to the text. */
  predicate WellFormed(row: Row)
  {
    |row| > Text
  }

  predicate AllWellFormed(rows: seq<Row>)
  {
    forall k :: 0 <= k < |rows| ==> WellFormed(rows[k])
  }

  /** The records of each chat sit in one contiguous run, as they do once the log
      is sorted by chat name first. */
  ghost predicate Grouped(rows: seq<Row>)
    requires AllWellFormed(rows)
  {
    forall a, b, c :: InOneRun(rows, a, b, c)
  }

  /** A row between two rows of one chat belongs to that chat. */
  ghost predicate InOneRun(rows: seq<Row>, a: int, b: int, c: int)
    requires AllWellFormed(rows)
  {
    (0 <= a < b < c < |rows| && rows[a][ChatName] == rows[c][ChatName])
    ==> rows[b][ChatName] == rows[a][ChatName]
  }

  /** A JavaScript field read `row[col]`: the field, or `undefined` past the end. */
  datatype Value = Undefined | Str(s: string)

  function At(row: Row, col: nat): (v: Value)
    ensures v.Str? <==> col < |row|
    ensures v.Str? ==> v.s == row[col]
  {
    if col < |row| then Str(row[col]) else Undefined
  }

  /** The property key a value becomes when it indexes an object (`String(v)`). */
  function PropertyKey(v: Value): string
  {
    match v
    case Undefined => "undefined"
    case Str(s) => s
  }

  const AdjacentSeparatorString: string := "---"

  /** The row that closes a block of the context stream: one "---" per named field. */
  function Separator(width: nat): (r: Row)
    ensures |r| == width
    ensures forall k :: 0 <= k < width ==> r[k] == AdjacentSeparatorString
  {
    seq(width, _ => AdjacentSeparatorString)
  }
}
