/**
  The fixed table of thirteen columns: for each, its name, how a submitted
  value is validated and formatted, and the message reported when it is
  invalid. The order of the table is the order of the persisted file's
  fields and of validation messages.
 */
module Schema {
  import opened Decimal
  import opened Json

  datatype IntParams = IntParams(allowNull: bool, min: Option<int>, max: Option<int>)
  datatype StringParams = StringParams(maxLength: int, allowNull: bool)

  /** Integer columns carry the `toInt` formatter; the others store values as given. */
  datatype Kind = IntColumn(ip: IntParams) | TextColumn(sp: StringParams) | BoolColumn

  datatype Column = Column(name: string, kind: Kind, invalidMsg: string)

  const Required := IntParams(false, Some(1), None)

  function IntMessage(name: string, lowest: string): string {
    "Attribute '" + name + "' must be an integer, greater than " + lowest + " and must not be null."
  }

  function TextMessage(name: string, max: string, required: bool): string {
    "Attribute '" + name + "' must be a string of maximum " + max + " characters"
      + (if required then " and must not be null or empty." else ".")
  }

  const Columns: seq<Column> := [
    Column("#", IntColumn(Required), IntMessage("#", "1")),
    Column("Name", TextColumn(StringParams(45, false)), TextMessage("Name", "45", true)),
    Column("Type 1", TextColumn(StringParams(20, false)), TextMessage("Type 1", "20", true)),
    Column("Type 2", TextColumn(StringParams(20, true)), TextMessage("Type 2", "20", false)),
    Column("Total", IntColumn(Required), IntMessage("Total", "0")),
    Column("HP", IntColumn(Required), IntMessage("HP", "0")),
    Column("Attack", IntColumn(Required), IntMessage("Attack", "0")),
    Column("Defense", IntColumn(Required), IntMessage("Defense", "0")),
    Column("Sp. Atk", IntColumn(Required), IntMessage("Sp. Atk", "0")),
    Column("Sp. Def", IntColumn(Required), IntMessage("Sp. Def", "0")),
    Column("Speed", IntColumn(Required), IntMessage("Speed", "0")),
    Column("Generation", IntColumn(Required), IntMessage("Generation", "0")),
    Column("Legendary", BoolColumn, "Attribute 'Legendary' must be a boolean and must not be null.")
  ]

  const NameColumn: nat := 1
  const LegendaryColumn: nat := 12

  /**
    String validator: null and loosely-empty values are accepted exactly when
    null is allowed; otherwise the value must be a string no longer than
    `maxLength` (a non-positive `maxLength` means no limit).
   */
  function ValidateString(v: Value, p: StringParams): (ok: bool)
    ensures (v.Null? || LooseEmpty(v)) ==> (ok <==> p.allowNull)
    ensures ok && !p.allowNull ==> v.Str? && v.s != ""
    ensures ok ==> v.Null? || LooseEmpty(v) || v.Str?
    ensures ok && v.Str? && p.maxLength > 0 ==> |v.s| <= p.maxLength
    ensures v.Str? && v.s != "" && (p.maxLength <= 0 || |v.s| <= p.maxLength) ==> ok
  {
    if p.allowNull && (v.Null? || LooseEmpty(v)) then true
    else if !p.allowNull && (v.Null? || LooseEmpty(v)) then false
    else if !v.Str? then false
    else if p.maxLength > 0 && |v.s| > p.maxLength then false
    else true
  }

  /** Integer validator: a number within the optional bounds, or null when allowed. */
  function ValidateInt(v: Value, p: IntParams): (ok: bool)
    ensures v.Null? ==> (ok <==> p.allowNull)
    ensures !v.Null? ==> (ok <==> v.Num? && (p.min.Some? ==> v.n >= p.min.value)
                                          && (p.max.Some? ==> v.n <= p.max.value))
  {
    if v.Null? && p.allowNull then true
    else if v.Null? && !p.allowNull then false
    else if !v.Num? then false
    else if p.min.Some? && v.n < p.min.value then false
    else if p.max.Some? && v.n > p.max.value then false
    else true
  }

  /** Boolean validator: a boolean, or null when allowed. */
  function ValidateBool(v: Value, allowNull: bool): (ok: bool)
    ensures ok <==> v.Bool? || (v.Null? && allowNull)
  {
    if v.Null? && allowNull then true
    else if v.Null? && !allowNull then false
    else if !v.Bool? then false
    else true
  }

  /**
    The `toInt` formatter: a number is kept; anything else is printed as a
    string and scanned for a leading integer, giving null when there is none.
   */
  function ToInt(v: Value): (r: Value)
    ensures r.Null? || r.Num?
    ensures v.Num? ==> r == v
    ensures v.Str? ==> (r.Num? <==> ParseLeadingInt(v.s).Some?)
    ensures v.Str? && r.Num? ==> ParseLeadingInt(v.s) == Some(r.n)
    ensures v.Null? || v.Bool? ==> r == Null
  {
    if v.Num? then v
    else match ParseLeadingInt(JsString(v))
      case Some(i) => Num(i)
      case None => Null
  }

  /**
    A column's `validationFct`. A value it accepts has the column's type, and
    null is accepted exactly when the column allows it.
   */
  function Validate(c: Column, v: Value): (ok: bool)
    ensures ok && c.kind.IntColumn? ==> v.Null? || v.Num?
    ensures ok && c.kind.TextColumn? ==> v.Null? || LooseEmpty(v) || v.Str?
    ensures ok && c.kind.BoolColumn? ==> v.Bool?
    ensures v.Null? ==> (ok <==> match c.kind
                                 case IntColumn(ip) => ip.allowNull
                                 case TextColumn(sp) => sp.allowNull
                                 case BoolColumn => false)
  {
    match c.kind
    case IntColumn(ip) => ValidateInt(v, ip)
    case TextColumn(sp) => ValidateString(v, sp)
    case BoolColumn => ValidateBool(v, false)
  }

  /**
    The column's formatter if it has one, otherwise the value unchanged. An
    integer column's value is null or a number afterwards, and a value that
    passed validation comes out as it went in.
   */
  function Format(c: Column, v: Value): (r: Value)
    ensures c.kind.IntColumn? ==> r.Null? || r.Num?
    ensures Validate(c, v) ==> r == v
  {
    if c.kind.IntColumn? then ToInt(v) else v
  }

  function ColumnIndexFrom(cols: seq<Column>, k: string, from: nat): (r: Option<nat>)
    requires from <= |cols|
    ensures r.Some? ==> from <= r.value < |cols| && cols[r.value].name == k
    ensures r.None? ==> forall j :: from <= j < |cols| ==> cols[j].name != k
    ensures r.Some? ==> forall j :: from <= j < r.value ==> cols[j].name != k
    decreases |cols| - from
  {
    if from == |cols| then None
    else if cols[from].name == k then Some(from)
    else ColumnIndexFrom(cols, k, from + 1)
  }

  /** `columns[k]`: the position of the first column named `k`, if there is one. */
  function ColumnIndex(cols: seq<Column>, k: string): (r: Option<nat>)
    ensures r.Some? ==> r.value < |cols| && cols[r.value].name == k
    ensures r.Some? ==> forall j :: 0 <= j < r.value ==> cols[j].name != k
    ensures r.None? ==> forall j :: 0 <= j < |cols| ==> cols[j].name != k
  {
    ColumnIndexFrom(cols, k, 0)
  }

  function ColumnNames(cols: seq<Column>): (names: seq<string>)
    ensures |names| == |cols|
    ensures forall j :: 0 <= j < |cols| ==> names[j] == cols[j].name
  {
    seq(|cols|, j requires 0 <= j < |cols| => cols[j].name)
  }

  lemma ColumnNamesDistinct()
    ensures forall i, j :: 0 <= i < j < |Columns| ==> Columns[i].name != Columns[j].name
  {
  }

  /** Looking up a column of the schema by its own name finds that column. */
  lemma {:induction false} ColumnIndexOfName(j: nat)
    requires j < |Columns|
    ensures ColumnIndex(Columns, Columns[j].name) == Some(j)
  {
    ColumnNamesDistinct();
  }

  /** Name is the second column, found by its name, and it refuses null. */
  lemma NameColumnFacts()
    ensures Columns[NameColumn].name == "Name"
    ensures ColumnIndex(Columns, "Name") == Some(NameColumn)
    ensures !Validate(Columns[NameColumn], Null)
  {
    ColumnIndexOfName(NameColumn);
  }

  /**
    `#`, Total, HP, Attack, Defense, Sp. Atk, Sp. Def, Speed and Generation are
    the integer columns, and each accepts exactly the numbers from 1 upwards.
   */
  lemma {:induction false} IntColumnsAcceptExactly(j: nat, v: Value)
    requires j < |Columns|
    ensures Columns[j].kind.IntColumn? <==> j == 0 || 4 <= j <= 11
    ensures Columns[j].kind.IntColumn? ==> (Validate(Columns[j], v) <==> v.Num? && v.n >= 1)
  {
  }

  /** Legendary accepts exactly the booleans. */
  lemma LegendaryAcceptsExactlyBooleans(v: Value)
    ensures Validate(Columns[LegendaryColumn], v) <==> v.Bool?
  {
  }

  /** Name and Type 1 accept exactly non-empty strings of at most 45 and 20 characters. */
  lemma RequiredTextColumnsAcceptExactly(v: Value)
    ensures Validate(Columns[NameColumn], v) <==> v.Str? && v.s != "" && |v.s| <= 45
    ensures Validate(Columns[2], v) <==> v.Str? && v.s != "" && |v.s| <= 20
  {
  }

  /**
    Type 2 accepts null, strings of at most 20 characters, and — because the
    emptiness test is JavaScript's loose `== ''` — also the number 0 and `false`.
   */
  lemma TypeTwoAcceptsLooseEmpty(v: Value)
    ensures Validate(Columns[3], v) <==> v.Null? || LooseEmpty(v) || (v.Str? && |v.s| <= 20)
    ensures Validate(Columns[3], Num(0)) && Validate(Columns[3], Bool(false))
    ensures !Validate(Columns[3], Num(1)) && !Validate(Columns[3], Bool(true))
  {
  }
}
