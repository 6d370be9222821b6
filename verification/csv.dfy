/**
  The data file: a header line of column names followed by one line per
  record, fields separated by commas. Reading it (`parseFile`) and writing it
  (`saveCsvFile`) are modelled over the file's text; the functions take the
  list of column names `names` as a parameter, and the service passes the
  names of `Schema.Columns`.
 */
module Csv {
  import opened Decimal
  import opened Json
  import opened Schema
  import opened Request
  import opened Store
  import opened Catalog
  import Text

  predicate Distinct(names: seq<string>) {
    forall i, j :: 0 <= i < j < |names| ==> names[i] != names[j]
  }

  /** A text that can stand as one field of one line: it holds no comma and no line break. */
  predicate Plain(s: string) {
    ',' !in s && '\n' !in s
  }

  /**
    A field as written: `value != null ? value : ''`, then turned into text by
    `join`. Null and the empty string are both written as the empty text; a
    number is written as text that scans back to it.
   */
  function EncodeField(v: Value): (t: string)
    ensures v.Null? ==> t == ""
    ensures v.Str? ==> t == v.s
    ensures v.Num? ==> ParseLeadingInt(t) == Some(v.n)
    ensures v.Bool? ==> (t == "true" <==> v.b) && (t == "false" <==> !v.b)
  {
    if v.Null? then "" else JsString(v)
  }

  /** The fields of one record, one per column, in column order. */
  function Fields(names: seq<string>, r: Record): (fs: seq<string>)
    ensures |fs| == |names|
    ensures forall j :: 0 <= j < |names| ==> fs[j] == EncodeField(Lookup(r, names[j]))
  {
    seq(|names|, j requires 0 <= j < |names| => EncodeField(Lookup(r, names[j])))
  }

  /** One record's line: its fields joined by commas. */
  function Row(names: seq<string>, r: Record): string
    requires |names| >= 1
  {
    Text.Join(Fields(names, r), ",")
  }

  /** The record lines of the file, one per key in enumeration order. */
  function Rows(names: seq<string>, store: Store, order: seq<string>): (rs: seq<string>)
    requires |names| >= 1
    requires forall i :: 0 <= i < |order| ==> order[i] in store
  {
    if |order| == 0 then []
    else Rows(names, store, order[..|order| - 1]) + [Row(names, store[order[|order| - 1]])]
  }

  /** Record line `i` is the line of the `i`th enumerated record. */
  lemma {:induction false} RowsAt(names: seq<string>, store: Store, order: seq<string>, i: nat)
    requires |names| >= 1
    requires forall i :: 0 <= i < |order| ==> order[i] in store
    requires i < |order|
    ensures |Rows(names, store, order)| == |order|
    ensures Rows(names, store, order)[i] == Row(names, store[order[i]])
  {
    var init := order[..|order| - 1];
    if i < |init| {
      RowsAt(names, store, init, i);
    } else if |init| > 0 {
      RowsAt(names, store, init, 0);
    }
  }

  /** The lines of the file: the header, then each record in enumeration order. */
  function Lines(names: seq<string>, store: Store, order: seq<string>): (ls: seq<string>)
    requires |names| >= 1
    requires forall i :: 0 <= i < |order| ==> order[i] in store
  {
    [Text.Join(names, ",")] + Rows(names, store, order)
  }

  /** `saveCsvFile`: the text written to the data file, which starts with the header of column names. */
  function Encode(names: seq<string>, store: Store, order: seq<string>): (text: string)
    requires |names| >= 1
    requires forall i :: 0 <= i < |order| ==> order[i] in store
  {
    Text.Join(Lines(names, store, order), "\n")
  }

  /**
    One field as read back: the last column is `true` exactly for the texts
    `True` and `true`; the second to fourth columns are strings, the empty
    text standing for null; every other column goes through `toInt`.
   */
  function DecodeField(names: seq<string>, j: nat, text: string): (v: Value)
    requires j < |names|
    ensures j == |names| - 1 ==> (v == Bool(true) <==> text == "True" || text == "true") && v.Bool?
    ensures j != |names| - 1 && 1 <= j <= 3 ==> (text == "" ==> v == Null) && (text != "" ==> v == Str(text))
    ensures j != |names| - 1 && !(1 <= j <= 3) ==> v == ToInt(Str(text))
  {
    if j == |names| - 1 then Bool(text == "True" || text == "true")
    else if 1 <= j <= 3 then (if text != "" then Str(text) else Null)
    else ToInt(Str(text))
  }

  /** The record with `vals[j]` under `names[j]` for each of the first `n` columns: the loop of `parseFile`. */
  function BuildRecord(names: seq<string>, vals: seq<Value>, n: nat): (r: Record)
    requires n <= |names| == |vals|
    requires Distinct(names)
    ensures forall k :: k in r ==> exists j :: 0 <= j < n && names[j] == k
    ensures forall j :: 0 <= j < n ==> names[j] in r && r[names[j]] == vals[j]
  {
    if n == 0 then map[]
    else
      var prev := BuildRecord(names, vals, n - 1);
      var r := prev[names[n - 1] := vals[n - 1]];
      forall j | 0 <= j < n - 1
        ensures r[names[j]] == prev[names[j]]
      {
        assert names[j] != names[n - 1];
      }
      r
  }

  /** The values read from the fields of one line. */
  function DecodeValues(names: seq<string>, values: seq<string>): (vs: seq<Value>)
    requires |names| <= |values|
    ensures |vs| == |names|
    ensures forall j :: 0 <= j < |names| ==> vs[j] == DecodeField(names, j, values[j])
  {
    seq(|names|, j requires 0 <= j < |names| => DecodeField(names, j, values[j]))
  }

  /** The record read from the fields of one line. */
  function DecodeRow(names: seq<string>, values: seq<string>): (r: Record)
    requires |names| <= |values|
    requires Distinct(names)
    ensures forall k :: k in r <==> k in names
    ensures forall j :: 0 <= j < |names| ==> r[names[j]] == DecodeField(names, j, values[j])
  {
    BuildRecord(names, DecodeValues(names, values), |names|)
  }

  /**
    One line of the file read into the store: a line with fewer fields than
    there are columns is skipped; otherwise its record is stored under its
    Name (as a property key, so a null Name is stored under "null"),
    replacing any record read earlier under that key.
   */
  function AddLine(names: seq<string>, m: Store, line: string): (r: Store)
    requires Distinct(names)
    ensures |Text.Split(line, ',')| < |names| ==> r == m
    ensures |Text.Split(line, ',')| >= |names| ==>
              var values := Text.Split(line, ',');
              var key := JsString(Lookup(DecodeRow(names, values), "Name"));
              && r.Keys == m.Keys + {key}
              && (forall k :: k in m && k != key ==> r[k] == m[k])
              && (forall c :: c in r[key] <==> c in names)
              && (forall j :: 0 <= j < |names| ==> r[key][names[j]] == DecodeField(names, j, values[j]))
  {
    var values := Text.Split(line, ',');
    if |values| < |names| then m
    else
      var e := DecodeRow(names, values);
      m[JsString(Lookup(e, "Name")) := e]
  }

  /** The lines read in order into `m`. */
  function DecodeLines(names: seq<string>, m: Store, lines: seq<string>): (r: Store)
    requires Distinct(names)
    ensures m.Keys <= r.Keys
  {
    if |lines| == 0 then m
    else AddLine(names, DecodeLines(names, m, lines[..|lines| - 1]), lines[|lines| - 1])
  }

  /** Every record of `store` has exactly the fields `names`. */
  ghost predicate HasColumns(names: seq<string>, store: Store) {
    forall k, c :: k in store ==> (c in store[k] <==> c in names)
  }

  /**
    `parseFile`: every line after the header, read in order into an empty
    store. Every record read is stored under its Name as a property key and
    has exactly one field per column.
   */
  function Decode(names: seq<string>, text: string): (r: Store)
    requires Distinct(names)
    ensures WellKeyed(r)
    ensures HasColumns(names, r)
  {
    var lines := Text.Split(text, '\n')[1..];
    DecodeLinesWellKeyed(names, map[], lines);
    DecodeLinesColumns(names, map[], lines);
    DecodeLines(names, map[], lines)
  }

  /** Whatever the first line holds, reading the file ignores it. */
  lemma {:induction false} HeaderIgnored(names: seq<string>, header: string, rest: string)
    requires Distinct(names)
    requires '\n' !in header
    ensures Decode(names, header + "\n" + rest) == DecodeLines(names, map[], Text.Split(rest, '\n'))
  {
    Text.SplitAfterPiece(header, '\n', rest);
  }

  /**
    A field's value survives being written and read back. Text must be
    non-empty and plain: an empty string is written as an empty field,
    which reads back as null.
   */
  predicate FieldEncodable(names: seq<string>, j: nat, v: Value)
    requires j < |names|
  {
    if j == |names| - 1 then v.Bool?
    else if 1 <= j <= 3 then v.Null? || (v.Str? && v.s != "" && Plain(v.s))
    else v.Null? || v.Num?
  }

  /**
    A record survives the file: every column's value is one the file can
    carry, and the record is stored under its own Name.
   */
  predicate RecordEncodable(names: seq<string>, k: string, r: Record) {
    && (forall j :: 0 <= j < |names| ==> FieldEncodable(names, j, Lookup(r, names[j])))
    && k == JsString(Lookup(r, "Name"))
  }

  /** The columns `Decode` and `Encode` work with: distinct names without line breaks, Name the second of them. */
  predicate NamesFit(names: seq<string>) {
    && |names| > 2
    && Distinct(names)
    && names[1] == "Name"
    && (forall j :: 0 <= j < |names| ==> '\n' !in names[j])
  }

  /** The values of a record's columns, in column order, null for the ones it lacks. */
  function ColumnValues(names: seq<string>, r: Record): (vs: seq<Value>)
    ensures |vs| == |names|
    ensures forall j :: 0 <= j < |names| ==> vs[j] == Lookup(r, names[j])
  {
    seq(|names|, j requires 0 <= j < |names| => Lookup(r, names[j]))
  }

  /** The record as it is after reading it back: every column present, absent ones as null. */
  function Complete(names: seq<string>, r: Record): (c: Record)
    requires Distinct(names)
    ensures forall k :: k in c <==> k in names
    ensures forall j :: 0 <= j < |names| ==> c[names[j]] == Lookup(r, names[j])
  {
    BuildRecord(names, ColumnValues(names, r), |names|)
  }

  lemma {:induction false} FieldRoundTrip(names: seq<string>, j: nat, v: Value)
    requires j < |names|
    requires FieldEncodable(names, j, v)
    ensures DecodeField(names, j, EncodeField(v)) == v
    ensures Plain(EncodeField(v))
  {
    if v.Num? && j != |names| - 1 && !(1 <= j <= 3) {
      ParseIntToString(v.n, "");
      assert IntToString(v.n) + "" == IntToString(v.n);
      IntToStringPlain(v.n);
    }
  }

  lemma {:induction false} IntToStringPlain(i: int)
    ensures Plain(IntToString(i))
  {
    var s := IntToString(i);
    if i >= 0 {
      assert forall c :: c in s ==> IsDigit(c);
    } else {
      assert forall c :: c in s[1..] ==> IsDigit(c) by {
        assert AllDigits(s[1..]);
      }
      assert s == [s[0]] + s[1..];
    }
  }

  /** Writing a record as a line and reading the line back gives the completed record. */
  lemma {:induction false} LineRoundTrip(names: seq<string>, r: Record)
    requires NamesFit(names)
    requires forall j :: 0 <= j < |names| ==> FieldEncodable(names, j, Lookup(r, names[j]))
    ensures '\n' !in Text.Join(Fields(names, r), ",")
    ensures Text.Split(Text.Join(Fields(names, r), ","), ',') == Fields(names, r)
    ensures DecodeRow(names, Fields(names, r)) == Complete(names, r)
  {
    var fs := Fields(names, r);
    FieldsRoundTrip(names, r);
    JoinSingleLine(fs, ",");
    Text.SplitJoin(fs, ',');
    assert DecodeValues(names, fs) == ColumnValues(names, r);
  }

  /** Every written field of a record is plain and reads back as the record's value. */
  lemma {:induction false} FieldsRoundTrip(names: seq<string>, r: Record)
    requires forall j :: 0 <= j < |names| ==> FieldEncodable(names, j, Lookup(r, names[j]))
    ensures forall j :: 0 <= j < |names| ==> Plain(Fields(names, r)[j])
    ensures forall j :: 0 <= j < |names| ==> DecodeField(names, j, Fields(names, r)[j]) == Lookup(r, names[j])
  {
    forall j | 0 <= j < |names|
      ensures Plain(Fields(names, r)[j]) && DecodeField(names, j, Fields(names, r)[j]) == Lookup(r, names[j])
    {
      FieldRoundTrip(names, j, Lookup(r, names[j]));
    }
  }

  /** A written record line holds no line break. */
  lemma {:induction false} RowIsOneLine(names: seq<string>, r: Record)
    requires NamesFit(names)
    requires forall j :: 0 <= j < |names| ==> FieldEncodable(names, j, Lookup(r, names[j]))
    ensures '\n' !in Row(names, r)
  {
    LineRoundTrip(names, r);
  }

  /** Joining pieces without a line break, with a separator without one, gives a single line. */
  lemma {:induction false} JoinSingleLine(parts: seq<string>, sep: string)
    requires |parts| >= 1
    requires forall i :: 0 <= i < |parts| ==> '\n' !in parts[i]
    requires '\n' !in sep
    ensures '\n' !in Text.Join(parts, sep)
  {
    if |parts| > 1 {
      JoinSingleLine(parts[1..], sep);
    }
  }

  /** Reading back one written record stores its completed form under its key. */
  lemma {:induction false} AddLineRoundTrip(names: seq<string>, m: Store, k: string, r: Record)
    requires NamesFit(names)
    requires RecordEncodable(names, k, r)
    ensures AddLine(names, m, Text.Join(Fields(names, r), ",")) == m[k := Complete(names, r)]
  {
    LineRoundTrip(names, r);
    var c := Complete(names, r);
    assert c["Name"] == Lookup(r, names[1]);
    assert Lookup(c, "Name") == Lookup(r, "Name");
  }

  /** The completed records of the given keys, keyed as the store keys them. */
  function CompletedOf(names: seq<string>, store: Store, keys: seq<string>): Store
    requires Distinct(names)
    requires forall i :: 0 <= i < |keys| ==> keys[i] in store
  {
    if |keys| == 0 then map[]
    else CompletedOf(names, store, keys[..|keys| - 1])[keys[|keys| - 1] := Complete(names, store[keys[|keys| - 1]])]
  }

  /** `CompletedOf` holds exactly the given keys, each with its record completed. */
  lemma {:induction false} CompletedOfKeys(names: seq<string>, store: Store, keys: seq<string>)
    requires Distinct(names)
    requires forall i :: 0 <= i < |keys| ==> keys[i] in store
    ensures forall k :: k in CompletedOf(names, store, keys) <==> k in keys
    ensures forall k :: k in CompletedOf(names, store, keys) ==> k in store && CompletedOf(names, store, keys)[k] == Complete(names, store[k])
  {
    if |keys| > 0 {
      var init := keys[..|keys| - 1];
      assert forall i :: 0 <= i < |init| ==> init[i] == keys[i];
      CompletedOfKeys(names, store, init);
      SnocMembers(keys);
    }
  }

  lemma SnocMembers(keys: seq<string>)
    requires |keys| > 0
    ensures forall k :: k in keys <==> k in keys[..|keys| - 1] || k == keys[|keys| - 1]
  {
    assert keys == keys[..|keys| - 1] + [keys[|keys| - 1]];
  }

  /** The record lines of the written file, read back, give every enumerated record, completed. */
  lemma {:induction false} RowsRoundTrip(names: seq<string>, store: Store, order: seq<string>)
    requires NamesFit(names)
    requires forall i :: 0 <= i < |order| ==> order[i] in store && RecordEncodable(names, order[i], store[order[i]])
    ensures DecodeLines(names, map[], Rows(names, store, order)) == CompletedOf(names, store, order)
  {
    if |order| > 0 {
      var init := order[..|order| - 1];
      var k := order[|order| - 1];
      assert forall i :: 0 <= i < |init| ==> init[i] == order[i];
      RowsRoundTrip(names, store, init);
      RowStep(names, Rows(names, store, order), Rows(names, store, init), CompletedOf(names, store, init), k, store[k]);
    }
  }

  /** Reading one more written line stores one more completed record. */
  lemma {:induction false} RowStep(names: seq<string>, ls: seq<string>, init: seq<string>, m: Store, k: string, r: Record)
    requires NamesFit(names)
    requires RecordEncodable(names, k, r)
    requires ls == init + [Row(names, r)]
    requires DecodeLines(names, map[], init) == m
    ensures DecodeLines(names, map[], ls) == m[k := Complete(names, r)]
  {
    assert ls[..|ls| - 1] == init;
    AddLineRoundTrip(names, m, k, r);
  }

  /**
    The file written by `saveCsvFile`, read back by `parseFile`, gives the
    same store — each record completed with null for the columns it lacks —
    whenever every value is one the file can carry and each record is
    stored under its own Name.
   */
  lemma {:induction false} EncodeDecode(names: seq<string>, store: Store, order: seq<string>)
    requires NamesFit(names)
    requires IsEnumeration(order, store)
    requires forall k :: k in store ==> RecordEncodable(names, k, store[k])
    ensures Decode(names, Encode(names, store, order)) == map k | k in store :: Complete(names, store[k])
  {
    EnumeratedEncodable(names, store, order);
    LinesOfEncoding(names, store, order);
    RowsRoundTrip(names, store, order);
    assert Text.Split(Encode(names, store, order), '\n')[1..] == Rows(names, store, order);
    CompletedEnumeration(names, store, order);
  }

  lemma {:induction false} EnumeratedEncodable(names: seq<string>, store: Store, order: seq<string>)
    requires IsEnumeration(order, store)
    requires forall k :: k in store ==> RecordEncodable(names, k, store[k])
    ensures forall i :: 0 <= i < |order| ==> order[i] in store && RecordEncodable(names, order[i], store[order[i]])
  {
  }

  /** The written file splits back into exactly its lines. */
  lemma {:induction false} LinesOfEncoding(names: seq<string>, store: Store, order: seq<string>)
    requires NamesFit(names)
    requires forall i :: 0 <= i < |order| ==> order[i] in store && RecordEncodable(names, order[i], store[order[i]])
    ensures Text.Split(Encode(names, store, order), '\n') == Lines(names, store, order)
  {
    var ls := Lines(names, store, order);
    LinesAreSingle(names, store, order);
    Text.SplitJoin(ls, '\n');
  }

  lemma {:induction false} LinesAreSingle(names: seq<string>, store: Store, order: seq<string>)
    requires NamesFit(names)
    requires forall i :: 0 <= i < |order| ==> order[i] in store && RecordEncodable(names, order[i], store[order[i]])
    ensures forall i :: 0 <= i < |Lines(names, store, order)| ==> '\n' !in Lines(names, store, order)[i]
  {
    var ls := Lines(names, store, order);
    var rows := Rows(names, store, order);
    assert ls == [Text.Join(names, ",")] + rows;
    JoinSingleLine(names, ",");
    if |order| > 0 {
      RowsAt(names, store, order, 0);
    }
    forall i | 0 <= i < |rows|
      ensures '\n' !in rows[i]
    {
      RowsAt(names, store, order, i);
      RowIsOneLine(names, store[order[i]]);
    }
  }

  /** Completing the records of every enumerated key is completing the records of the store. */
  lemma {:induction false} CompletedEnumeration(names: seq<string>, store: Store, order: seq<string>)
    requires Distinct(names)
    requires IsEnumeration(order, store)
    ensures CompletedOf(names, store, order) == map k | k in store :: Complete(names, store[k])
  {
    CompletedOfKeys(names, store, order);
  }

  /** The schema's column names, which fit the file format: distinct, single-line, Name second, Legendary last. */
  function SchemaNames(): (names: seq<string>)
    ensures names == ColumnNames(Columns)
    ensures NamesFit(names)
    ensures |names| - 1 == LegendaryColumn
  {
    var names := ColumnNames(Columns);
    ColumnNamesDistinct();
    ColumnNamesSingleLine();
    names
  }

  lemma ColumnNamesSingleLine()
    ensures forall j :: 0 <= j < |Columns| ==> '\n' !in Columns[j].name
  {
    var names := ColumnNames(Columns);
    assert names == ["#", "Name", "Type 1", "Type 2", "Total", "HP", "Attack", "Defense",
                     "Sp. Atk", "Sp. Def", "Speed", "Generation", "Legendary"];
    LiteralNamesSingleLine(names);
  }

  lemma LiteralNamesSingleLine(names: seq<string>)
    requires names == ["#", "Name", "Type 1", "Type 2", "Total", "HP", "Attack", "Defense",
                       "Sp. Atk", "Sp. Def", "Speed", "Generation", "Legendary"]
    ensures forall j :: 0 <= j < |names| ==> '\n' !in names[j]
  {
    assert '\n' !in "#" && '\n' !in "Name" && '\n' !in "Type 1" && '\n' !in "Type 2";
    assert '\n' !in "Total" && '\n' !in "HP" && '\n' !in "Attack" && '\n' !in "Defense";
    assert '\n' !in "Sp. Atk" && '\n' !in "Sp. Def" && '\n' !in "Speed";
    assert '\n' !in "Generation" && '\n' !in "Legendary";
  }

  /** The first line of the written file is the header, the column names joined by commas. */
  lemma {:induction false} EncodeHeaderFirst(names: seq<string>, store: Store, order: seq<string>)
    requires NamesFit(names)
    requires forall i :: 0 <= i < |order| ==> order[i] in store
    ensures Text.Split(Encode(names, store, order), '\n')[0] == Text.Join(names, ",")
  {
    var ls := Lines(names, store, order);
    var header := Text.Join(names, ",");
    JoinSingleLine(names, ",");
    if |ls| == 1 {
      Text.SplitWithoutSeparator(header, '\n');
    } else {
      assert ls[1..] == Rows(names, store, order);
      Text.SplitAfterPiece(header, '\n', Text.Join(ls[1..], "\n"));
    }
  }

  /** `saveCsvFile` over the schema's columns: the file's first line is the header of column names. */
  function SaveCsvFile(store: Store, order: seq<string>): (text: string)
    requires forall i :: 0 <= i < |order| ==> order[i] in store
    ensures Text.Split(text, '\n')[0] == Text.Join(SchemaNames(), ",")
  {
    EncodeHeaderFirst(SchemaNames(), store, order);
    Encode(SchemaNames(), store, order)
  }

  /** `parseFile` over the schema's columns: every record is under its Name and has exactly the schema's fields. */
  function ParseFile(text: string): (r: Store)
    ensures WellKeyed(r)
    ensures HasColumns(SchemaNames(), r)
  {
    Decode(SchemaNames(), text)
  }

  /** The data file the service writes reads back as the same store, each record completed with nulls. */
  lemma {:induction false} SaveThenParse(store: Store, order: seq<string>)
    requires IsEnumeration(order, store)
    requires forall k :: k in store ==> RecordEncodable(SchemaNames(), k, store[k])
    ensures ParseFile(SaveCsvFile(store, order)) == map k | k in store :: Complete(SchemaNames(), store[k])
  {
    EncodeDecode(SchemaNames(), store, order);
  }

  /** Reading lines into a store keeps every record under the key its Name gives. */
  lemma {:induction false} DecodeLinesWellKeyed(names: seq<string>, m: Store, lines: seq<string>)
    requires Distinct(names)
    requires WellKeyed(m)
    ensures WellKeyed(DecodeLines(names, m, lines))
  {
    if |lines| > 0 {
      var before := DecodeLines(names, m, lines[..|lines| - 1]);
      DecodeLinesWellKeyed(names, m, lines[..|lines| - 1]);
      var values := Text.Split(lines[|lines| - 1], ',');
      if |values| >= |names| {
        var e := DecodeRow(names, values);
        KeyedAfterPut(before, JsString(Lookup(e, "Name")), e);
      }
    }
  }

  /** Reading lines into a store whose records have exactly the fields `names` keeps it so. */
  lemma {:induction false} DecodeLinesColumns(names: seq<string>, m: Store, lines: seq<string>)
    requires Distinct(names)
    requires HasColumns(names, m)
    ensures HasColumns(names, DecodeLines(names, m, lines))
  {
    if |lines| > 0 {
      var before := DecodeLines(names, m, lines[..|lines| - 1]);
      DecodeLinesColumns(names, m, lines[..|lines| - 1]);
      assert DecodeLines(names, m, lines) == AddLine(names, before, lines[|lines| - 1]);
    }
  }
}
