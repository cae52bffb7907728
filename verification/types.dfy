/**
  * The records of plap: value tags, schema entries, parsed entries and the
  * errors that end the process in the C library.
  */
module PlapTypes {
  import opened Wrappers

  /** The `parse_as` / `t` tags (PLAP_STRING, PLAP_INT, PLAP_DOUBLE). */
  const StringKind: int := 1
  const IntKind: int := 2
  const DoubleKind: int := 3

  /**
    * A coerced value: the tag `t` together with the active member of the union.
    * NoValue is the zero-filled entry of a flag option (t == 0).
    * Double keeps the text given to atof; floating point is not modelled.
    */
  datatype Value =
    | NoValue
    | Str(text: string)
    | Int(n: int)
    | Double(source: string)

  /** The `t` field of a parsed entry. */
  function Tag(v: Value): int
  {
    match v
    case NoValue => 0
    case Str(_) => StringKind
    case Int(_) => IntKind
    case Double(_) => DoubleKind
  }

  /**
    * The switch on `parse_as` shared by positionals and option values: INT goes
    * through atoi (`parseInt`), DOUBLE through atof, and STRING as well as every
    * other tag keeps the text verbatim.
    */
  function Coerce(parseAs: int, text: string, parseInt: string -> int): (v: Value)
    ensures v.Str? <==> parseAs != IntKind && parseAs != DoubleKind
    ensures v.Str? ==> v.text == text
    ensures v.Int? ==> parseAs == IntKind && v.n == parseInt(text)
    ensures v.Double? ==> parseAs == DoubleKind && v.source == text
    ensures Tag(v) == (if parseAs == IntKind || parseAs == DoubleKind then parseAs else StringKind)
  {
    if parseAs == IntKind then Int(parseInt(text))
    else if parseAs == DoubleKind then Double(text)
    else Str(text)
  }

  /** One expected positional slot of the schema. */
  datatype PositionalDef = PositionalDef(parseAs: int, required: bool, name: string, desc: Option<string>)

  /** One option of the schema; `matched` is set when the option is seen during a parse. */
  datatype OptionDef = OptionDef(
    matched: bool,
    parseAs: int,
    needsValue: bool,
    shortName: Option<string>,
    longName: string,
    desc: Option<string>)

  /** The zero-filled slots of a freshly allocated definition table. */
  const BlankPositional := PositionalDef(0, false, "", None)
  const BlankOption := OptionDef(false, 0, false, None, "", None)

  /** A parsed positional: the name of its slot (absent for an extra token) and its value. */
  datatype PositionalArg = PositionalArg(name: Option<string>, value: Value)

  /** A parsed option: the name form that was typed, and the value if the option takes one. */
  datatype OptionArg = OptionArg(shortName: Option<string>, longName: Option<string>, value: Value)

  /** The result of a parse. */
  datatype Args = Args(positional: seq<PositionalArg>, optional: seq<OptionArg>)

  /** The usage errors that make plap_parse_args print a diagnostic and exit. */
  datatype ParseError =
    | NotEnoughArgs               // fewer tokens than required positionals, before the scan
    | NotEnoughPositional         // fewer positional tokens than required, after the scan
    | EmptyOption                 // the token `-` or `--`
    | UnknownOption(token: string)
    | AlreadySupplied(token: string)
    | MissingValue(token: string)

  /** The schema author's mistakes that plap_option reports before exiting. */
  datatype DefinitionError =
    | NoLongName
    | ConflictingOption(existing: string)   // long name of the definition it collides with

  /**
    * `streq`: string equality on nullable strings, where NULL equals nothing,
    * not even another NULL.
    */
  function StrEq(a: Option<string>, b: Option<string>): (r: bool)
    ensures r ==> a.Some? && b.Some?
    ensures a.Some? && b.Some? ==> (r <==> a.value == b.value)
  {
    a.Some? && b.Some? && a.value == b.value
  }
}
