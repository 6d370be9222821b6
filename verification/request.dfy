/**
  Checking a request body against a column table, and copying its fields
  into a record. A body is a parsed JSON object: its own properties, in
  enumeration order. Reading a property that is absent gives null, which
  every validator and `toInt` treat exactly as JavaScript's `undefined`.

  The functions take the column table as a parameter `cols`; the service
  always passes `Schema.Columns`.
 */
module Request {
  import opened Json
  import opened Schema
  import Text

  type Field = (string, Value)
  type Body = seq<Field>

  /** A stored record: column name to value. */
  type Record = map<string, Value>

  /** The value of a validation: whether it passed and the messages collected. */
  datatype Validation = Validation(ok: bool, messages: seq<string>) {
    /** The messages as one newline-separated text, as reported to the client. */
    function Message(): string {
      if |messages| == 0 then "" else Text.Join(messages, "\n")
    }
  }

  /** `record[k]`, null when the record has no such property. */
  function Lookup(r: Record, k: string): Value {
    if k in r then r[k] else Null
  }

  /** Position `i` holds the last property of the body named `k`. */
  predicate IsLastWith(body: Body, k: string, i: int) {
    0 <= i < |body| && body[i].0 == k && forall j :: i < j < |body| ==> body[j].0 != k
  }

  /** `data[k]`: the value of the last property named `k`, null when there is none. */
  function Get(body: Body, k: string): (v: Value)
    ensures forall i :: IsLastWith(body, k, i) ==> v == body[i].1
  {
    if |body| == 0 then Null
    else if body[|body| - 1].0 == k then body[|body| - 1].1
    else
      var init := body[..|body| - 1];
      assert forall i :: IsLastWith(body, k, i) ==> IsLastWith(init, k, i);
      Get(init, k)
  }

  /** A property the body does not carry reads as null. */
  lemma {:induction false} GetAbsent(body: Body, k: string)
    requires forall i :: 0 <= i < |body| ==> body[i].0 != k
    ensures Get(body, k) == Null
  {
    if |body| > 0 {
      GetAbsent(body[..|body| - 1], k);
    }
  }

  /** A property whose value is not null is present; this finds its last occurrence. */
  lemma {:induction false} LastWith(body: Body, k: string) returns (i: nat)
    requires !Get(body, k).Null?
    ensures IsLastWith(body, k, i)
  {
    var n := |body| - 1;
    if body[n].0 == k {
      i := n;
    } else {
      var init := body[..n];
      assert Get(body, k) == Get(init, k);
      i := LastWith(init, k);
      assert forall j :: i < j < n ==> body[j] == init[j];
    }
  }

  predicate ValidFor(cols: seq<Column>, j: nat, body: Body)
    requires j < |cols|
  {
    Validate(cols[j], Get(body, cols[j].name))
  }

  predicate StrictlyIncreasing(idx: seq<nat>) {
    forall a, b :: 0 <= a < b < |idx| ==> idx[a] < idx[b]
  }

  /** The positions, from `from` on, of the false entries of `ok`, ascending. */
  function FailedFrom(ok: seq<bool>, from: nat): (idx: seq<nat>)
    requires from <= |ok|
    ensures StrictlyIncreasing(idx)
    ensures forall a :: 0 <= a < |idx| ==> from <= idx[a] < |ok| && !ok[idx[a]]
    ensures forall j :: from <= j < |ok| && !ok[j] ==> j in idx
    decreases |ok| - from
  {
    if from == |ok| then []
    else
      var rest := FailedFrom(ok, from + 1);
      if ok[from] then rest else [from] + rest
  }

  /** Every column whose value fails validation, in column order, with none skipped. */
  function FailedColumns(cols: seq<Column>, body: Body): (idx: seq<nat>)
    ensures StrictlyIncreasing(idx)
    ensures forall j :: 0 <= j < |cols| ==> (j in idx <==> !ValidFor(cols, j, body))
    ensures forall a :: 0 <= a < |idx| ==> idx[a] < |cols|
  {
    var verdicts := seq(|cols|, j requires 0 <= j < |cols| => ValidFor(cols, j, body));
    FailedFrom(verdicts, 0)
  }

  function MessagesOf(cols: seq<Column>, idx: seq<nat>): (ms: seq<string>)
    requires forall a :: 0 <= a < |idx| ==> idx[a] < |cols|
    ensures |ms| == |idx|
    ensures forall a :: 0 <= a < |idx| ==> ms[a] == cols[idx[a]].invalidMsg
  {
    seq(|idx|, a requires 0 <= a < |idx| => cols[idx[a]].invalidMsg)
  }

  lemma {:induction false} StrictlyIncreasingBounded(idx: seq<nat>, n: nat)
    requires StrictlyIncreasing(idx)
    requires forall a :: 0 <= a < |idx| ==> idx[a] < n
    ensures |idx| <= n
  {
    if |idx| > 0 {
      var last := idx[|idx| - 1];
      var init := idx[..|idx| - 1];
      assert forall a :: 0 <= a < |init| ==> init[a] < last;
      StrictlyIncreasingBounded(init, last);
    }
  }

  /**
    `validateDataForCreate`: every column is checked against the body's value
    for it (absent counts as null); the body passes exactly when all columns
    do, and the messages are those of the failing columns in column order.
   */
  function ValidateForCreate(cols: seq<Column>, body: Body): (r: Validation)
    ensures r.ok <==> forall j :: 0 <= j < |cols| ==> ValidFor(cols, j, body)
    ensures r.ok <==> r.messages == []
    ensures |r.messages| <= |cols|
    ensures forall j :: 0 <= j < |cols| && !ValidFor(cols, j, body) ==> cols[j].invalidMsg in r.messages
    ensures r.messages == MessagesOf(cols, FailedColumns(cols, body))
  {
    var idx := FailedColumns(cols, body);
    var ms := MessagesOf(cols, idx);
    assert forall j :: 0 <= j < |cols| && !ValidFor(cols, j, body) ==> cols[j].invalidMsg in ms by {
      forall j | 0 <= j < |cols| && !ValidFor(cols, j, body)
        ensures cols[j].invalidMsg in ms
      {
        var a :| 0 <= a < |idx| && idx[a] == j;
        assert ms[a] == cols[j].invalidMsg;
      }
    }
    assert |idx| <= |cols| by {
      StrictlyIncreasingBounded(idx, |cols|);
    }
    assert |idx| > 0 ==> !ValidFor(cols, idx[0], body);
    Validation(|idx| == 0, ms)
  }

  /**
    The messages of create validation are exactly those of the failing
    columns, one per failing column, in column order.
   */
  lemma {:induction false} CreateMessagesInColumnOrder(cols: seq<Column>, body: Body)
    ensures exists idx: seq<nat> ::
              && StrictlyIncreasing(idx)
              && (forall a :: 0 <= a < |idx| ==> idx[a] < |cols|)
              && (forall j :: 0 <= j < |cols| ==> (j in idx <==> !ValidFor(cols, j, body)))
              && ValidateForCreate(cols, body).messages == MessagesOf(cols, idx)
  {
    var idx := FailedColumns(cols, body);
    assert ValidateForCreate(cols, body).messages == MessagesOf(cols, idx);
  }

  /** A property the update validation looks at: one named after a column. */
  predicate Known(cols: seq<Column>, f: Field) {
    ColumnIndex(cols, f.0).Some?
  }

  predicate FieldValid(cols: seq<Column>, f: Field)
    requires Known(cols, f)
  {
    Validate(cols[ColumnIndex(cols, f.0).value], f.1)
  }

  function FieldMessage(cols: seq<Column>, f: Field): string
    requires Known(cols, f)
  {
    cols[ColumnIndex(cols, f.0).value].invalidMsg
  }

  /** How many of the body's properties name a column. */
  function UsableFields(cols: seq<Column>, body: Body): (n: nat)
    ensures n == 0 <==> forall i :: 0 <= i < |body| ==> !Known(cols, body[i])
    ensures n <= |body|
  {
    if |body| == 0 then 0
    else
      assert forall i :: 1 <= i < |body| ==> body[i] == body[1..][i - 1];
      (if Known(cols, body[0]) then 1 else 0) + UsableFields(cols, body[1..])
  }

  /** A property that names a column and holds a value the column refuses. */
  predicate FieldFails(cols: seq<Column>, f: Field) {
    Known(cols, f) && !FieldValid(cols, f)
  }

  /** For each property of the body, whether it passes (does not fail). */
  function Verdicts(cols: seq<Column>, body: Body): (ok: seq<bool>)
    ensures |ok| == |body|
    ensures forall i :: 0 <= i < |body| ==> ok[i] == !FieldFails(cols, body[i])
  {
    seq(|body|, i requires 0 <= i < |body| => !FieldFails(cols, body[i]))
  }

  /** The positions of the failing properties, in body order, with none skipped. */
  function FailedFields(cols: seq<Column>, body: Body): (idx: seq<nat>)
    ensures StrictlyIncreasing(idx)
    ensures forall a :: 0 <= a < |idx| ==> idx[a] < |body|
    ensures forall i :: 0 <= i < |body| ==> (i in idx <==> FieldFails(cols, body[i]))
  {
    FailedFrom(Verdicts(cols, body), 0)
  }

  lemma FirstIsMember(b: seq<nat>)
    requires |b| > 0
    ensures b[0] in b
  {
  }

  /** Two ascending lists of positions with the same members are the same list. */
  lemma {:induction false} StrictlyIncreasingUnique(a: seq<nat>, b: seq<nat>)
    requires StrictlyIncreasing(a) && StrictlyIncreasing(b)
    requires forall x :: x in a <==> x in b
    ensures a == b
  {
    if |a| == 0 {
      if |b| > 0 {
        FirstIsMember(b);
      }
    } else {
      assert a[0] in b && |b| > 0;
      assert b[0] in a;
      assert a[0] == b[0];
      forall x
        ensures x in a[1..] <==> x in b[1..]
      {
        if x in a[1..] {
          var i :| 1 <= i < |a| && a[i] == x;
          assert x in b && x != b[0];
        }
        if x in b[1..] {
          var i :| 1 <= i < |b| && b[i] == x;
          assert x in a && x != a[0];
        }
      }
      StrictlyIncreasingUnique(a[1..], b[1..]);
      assert a == [a[0]] + a[1..] && b == [b[0]] + b[1..];
    }
  }

  /** The messages of the known properties that fail validation, in body order. */
  function FieldFailures(cols: seq<Column>, body: Body): (ms: seq<string>)
    ensures ms == [] <==> forall i :: 0 <= i < |body| && Known(cols, body[i]) ==> FieldValid(cols, body[i])
    ensures forall i :: 0 <= i < |body| && Known(cols, body[i]) && !FieldValid(cols, body[i]) ==>
              FieldMessage(cols, body[i]) in ms
    ensures forall m :: m in ms ==>
              exists i :: 0 <= i < |body| && Known(cols, body[i]) && !FieldValid(cols, body[i])
                && m == FieldMessage(cols, body[i])
    ensures |ms| <= |body|
  {
    if |body| == 0 then []
    else
      var here := if Known(cols, body[0]) && !FieldValid(cols, body[0])
        then [FieldMessage(cols, body[0])] else [];
      var rest := FieldFailures(cols, body[1..]);
      assert forall i :: 1 <= i < |body| ==> body[i] == body[1..][i - 1];
      here + rest
  }

  /** Every position one further on. */
  function Shift(idx: seq<nat>): (r: seq<nat>)
    ensures |r| == |idx|
    ensures forall a :: 0 <= a < |idx| ==> r[a] == idx[a] + 1
  {
    seq(|idx|, a requires 0 <= a < |idx| => idx[a] + 1)
  }

  /** Shifting an ascending list, and putting 0 before it, keeps it ascending. */
  lemma ShiftIncreasing(idx: seq<nat>, head: seq<nat>)
    requires StrictlyIncreasing(idx)
    requires head == [] || head == [0]
    ensures StrictlyIncreasing(head + Shift(idx))
  {
    var r := head + Shift(idx);
    forall a, b | 0 <= a < b < |r|
      ensures r[a] < r[b]
    {
      if |head| == 1 && a == 0 {
        assert r[b] == idx[b - 1] + 1;
      } else {
        assert r[a] == idx[a - |head|] + 1 && r[b] == idx[b - |head|] + 1;
      }
    }
  }

  lemma {:induction false} ShiftedIsFailed(ok: seq<bool>, x: nat)
    requires |ok| > 0
    requires x in Shift(FailedFrom(ok[1..], 0))
    ensures x in FailedFrom(ok, 0)
  {
    var ir := FailedFrom(ok[1..], 0);
    var a :| 0 <= a < |ir| && Shift(ir)[a] == x;
    assert !ok[1..][ir[a]];
  }

  lemma {:induction false} FailedIsShifted(ok: seq<bool>, x: nat)
    requires |ok| > 0
    requires x in FailedFrom(ok, 0) && x > 0
    ensures x in Shift(FailedFrom(ok[1..], 0))
  {
    var ir := FailedFrom(ok[1..], 0);
    assert !ok[1..][x - 1];
    assert x - 1 in ir;
    var b :| 0 <= b < |ir| && ir[b] == x - 1;
    assert Shift(ir)[b] == x;
  }

  /** A position is false in a list exactly when it is 0 and the first entry is false, or one past a false position of the rest. */
  lemma {:induction false} FailedFromMembers(ok: seq<bool>)
    requires |ok| > 0
    ensures forall x :: x in (if ok[0] then [] else [0]) + Shift(FailedFrom(ok[1..], 0)) <==> x in FailedFrom(ok, 0)
  {
    forall x
      ensures x in (if ok[0] then [] else [0]) + Shift(FailedFrom(ok[1..], 0)) <==> x in FailedFrom(ok, 0)
    {
      if x in Shift(FailedFrom(ok[1..], 0)) {
        ShiftedIsFailed(ok, x);
      }
      if x in FailedFrom(ok, 0) && x > 0 {
        FailedIsShifted(ok, x);
      }
    }
  }

  /** The false positions of a list: its first entry's, then those of the rest, one further on. */
  lemma {:induction false} FailedFromStep(ok: seq<bool>)
    requires |ok| > 0
    ensures FailedFrom(ok, 0) == (if ok[0] then [] else [0]) + Shift(FailedFrom(ok[1..], 0))
  {
    var head: seq<nat> := if ok[0] then [] else [0];
    ShiftIncreasing(FailedFrom(ok[1..], 0), head);
    FailedFromMembers(ok);
    StrictlyIncreasingUnique(head + Shift(FailedFrom(ok[1..], 0)), FailedFrom(ok, 0));
  }

  /** The failing positions of a body: its first property's, then those of the rest, one further on. */
  lemma {:induction false} FailedFieldsStep(cols: seq<Column>, body: Body)
    requires |body| > 0
    ensures FailedFields(cols, body) ==
              (if FieldFails(cols, body[0]) then [0] else []) + Shift(FailedFields(cols, body[1..]))
  {
    var ok := Verdicts(cols, body);
    assert ok[1..] == Verdicts(cols, body[1..]);
    FailedFromStep(ok);
  }

  /** The messages of the properties at positions `idx`, in that order. */
  function MessagesAt(cols: seq<Column>, body: Body, idx: seq<nat>): (ms: seq<string>)
    requires forall a :: 0 <= a < |idx| ==> idx[a] < |body| && Known(cols, body[idx[a]])
    ensures |ms| == |idx|
    ensures forall a :: 0 <= a < |idx| ==> ms[a] == FieldMessage(cols, body[idx[a]])
  {
    seq(|idx|, a requires 0 <= a < |idx| => FieldMessage(cols, body[idx[a]]))
  }

  lemma {:induction false} MessagesAtStep(cols: seq<Column>, body: Body, idx: seq<nat>, here: seq<string>)
    requires |body| > 0
    requires forall a :: 0 <= a < |idx| ==> idx[a] < |body| - 1 && Known(cols, body[1..][idx[a]])
    requires FieldFails(cols, body[0]) ==> here == [FieldMessage(cols, body[0])]
    requires !FieldFails(cols, body[0]) ==> here == []
    ensures var whole := (if FieldFails(cols, body[0]) then [0] else []) + Shift(idx);
            && (forall a :: 0 <= a < |whole| ==> whole[a] < |body| && Known(cols, body[whole[a]]))
            && MessagesAt(cols, body, whole) == here + MessagesAt(cols, body[1..], idx)
  {
    var whole := (if FieldFails(cols, body[0]) then [0] else []) + Shift(idx);
    var h := |here|;
    assert forall a :: h <= a < |whole| ==> whole[a] == idx[a - h] + 1 && body[whole[a]] == body[1..][idx[a - h]];
  }

  /**
    The update messages are exactly those of the failing properties, one per
    failing property, in body order: the order in which `forEach` pushes them.
   */
  lemma {:induction false} UpdateMessagesInBodyOrder(cols: seq<Column>, body: Body)
    ensures var idx := FailedFields(cols, body);
            && |FieldFailures(cols, body)| == |idx|
            && forall a :: 0 <= a < |idx| ==> FieldFailures(cols, body)[a] == FieldMessage(cols, body[idx[a]])
  {
    if |body| > 0 {
      var rest := body[1..];
      UpdateMessagesInBodyOrder(cols, rest);
      var ir := FailedFields(cols, rest);
      assert FieldFailures(cols, rest) == MessagesAt(cols, rest, ir);
      var here := if FieldFails(cols, body[0]) then [FieldMessage(cols, body[0])] else [];
      FailedFieldsStep(cols, body);
      FieldFailuresStep(cols, body);
      MessagesAtStep(cols, body, ir, here);
    }
  }

  lemma FieldFailuresStep(cols: seq<Column>, body: Body)
    requires |body| > 0
    ensures FieldFailures(cols, body) ==
              (if FieldFails(cols, body[0]) then [FieldMessage(cols, body[0])] else []) + FieldFailures(cols, body[1..])
  {
  }

  /** The message given when a body names no column at all. */
  function NoUsableFieldsMessage(cols: seq<Column>): string
    requires |cols| >= 1
  {
    "updatePokemon request body must contain at least 1 of the following fields: '"
      + Text.Join(ColumnNames(cols), "', '") + "'."
  }

  /**
    `validateDataForUpdate`: only properties named after a column are checked;
    the body passes exactly when there is at least one such property and each
    of them is valid. With none, it fails with the single no-usable-fields
    message.
   */
  function ValidateForUpdate(cols: seq<Column>, body: Body): (r: Validation)
    requires |cols| >= 1
    ensures r.ok <==> ((exists i :: 0 <= i < |body| && Known(cols, body[i]))
                       && (forall i :: 0 <= i < |body| && Known(cols, body[i]) ==> FieldValid(cols, body[i])))
    ensures (forall i :: 0 <= i < |body| ==> !Known(cols, body[i])) ==>
              r == Validation(false, [NoUsableFieldsMessage(cols)])
    ensures UsableFields(cols, body) > 0 ==> r.messages == FieldFailures(cols, body)
  {
    var failures := FieldFailures(cols, body);
    if UsableFields(cols, body) == 0 then Validation(false, failures + [NoUsableFieldsMessage(cols)])
    else Validation(failures == [], failures)
  }

  /**
    A column the body gives a non-null value for is among the keys
    `updateEntryData` copies, and when update validation passed that value is
    valid for the column.
   */
  lemma {:induction false} NamedColumnField(cols: seq<Column>, body: Body, k: string)
    requires |cols| >= 1
    requires ColumnIndex(cols, k).Some? && !Get(body, k).Null?
    ensures k in KnownKeys(cols, body)
    ensures ValidateForUpdate(cols, body).ok ==> Validate(cols[ColumnIndex(cols, k).value], Get(body, k))
  {
    var i := LastWith(body, k);
    assert Known(cols, body[i]);
  }

  /** A property that occurs in the body has a last occurrence at or after any given one. */
  lemma {:induction false} LastOccurrence(body: Body, k: string, i: nat) returns (l: nat)
    requires i < |body| && body[i].0 == k
    ensures IsLastWith(body, k, l)
  {
    var n := |body| - 1;
    if body[n].0 == k {
      l := n;
    } else {
      var init := body[..n];
      assert init[i] == body[i];
      l := LastOccurrence(init, k, i);
      assert forall j :: l < j < n ==> body[j] == init[j];
    }
  }

  /**
    When update validation passes, every column the body names — and so every
    field `updateEntryData` writes — holds a value valid for that column.
   */
  lemma {:induction false} KnownKeyValid(cols: seq<Column>, body: Body, k: string)
    requires |cols| >= 1
    requires ValidateForUpdate(cols, body).ok
    requires k in KnownKeys(cols, body)
    ensures ColumnIndex(cols, k).Some?
    ensures Validate(cols[ColumnIndex(cols, k).value], Get(body, k))
  {
    var i :| 0 <= i < |body| && Known(cols, body[i]) && body[i].0 == k;
    var l := LastOccurrence(body, k, i);
    assert Known(cols, body[l]);
  }

  /** A column that refuses null is written by no body that passes update validation without giving it a value. */
  lemma {:induction false} NullColumnNotWritten(cols: seq<Column>, body: Body, k: string)
    requires |cols| >= 1
    requires ValidateForUpdate(cols, body).ok
    requires ColumnIndex(cols, k).Some? && !Validate(cols[ColumnIndex(cols, k).value], Null)
    requires Get(body, k) == Null
    ensures k !in KnownKeys(cols, body)
  {
    if k in KnownKeys(cols, body) {
      KnownKeyValid(cols, body, k);
    }
  }

  /** The body with every property that names no column removed. */
  function KnownOnly(cols: seq<Column>, body: Body): (r: Body)
    ensures forall i :: 0 <= i < |r| ==> Known(cols, r[i])
    ensures forall f :: f in r <==> f in body && Known(cols, f)
  {
    if |body| == 0 then []
    else (if Known(cols, body[0]) then [body[0]] else []) + KnownOnly(cols, body[1..])
  }

  /** Properties that name no column have no effect on update validation. */
  lemma {:induction false} UpdateIgnoresUnknownKeys(cols: seq<Column>, body: Body)
    requires |cols| >= 1
    ensures ValidateForUpdate(cols, KnownOnly(cols, body)) == ValidateForUpdate(cols, body)
  {
    UnknownKeysIgnoredParts(cols, body);
  }

  lemma {:induction false} UnknownKeysIgnoredParts(cols: seq<Column>, body: Body)
    ensures FieldFailures(cols, KnownOnly(cols, body)) == FieldFailures(cols, body)
    ensures UsableFields(cols, KnownOnly(cols, body)) == UsableFields(cols, body)
  {
    if |body| > 0 {
      UnknownKeysIgnoredParts(cols, body[1..]);
      var k := KnownOnly(cols, body);
      if Known(cols, body[0]) {
        assert k[0] == body[0] && k[1..] == KnownOnly(cols, body[1..]);
      } else {
        assert k == KnownOnly(cols, body[1..]);
      }
    }
  }

  /** The column's formatter applied to a property's value. */
  function FormatField(cols: seq<Column>, f: Field): Value
    requires Known(cols, f)
  {
    Format(cols[ColumnIndex(cols, f.0).value], f.1)
  }

  /** `entry[k] = format(data[k])` for one property, when `k` names a column. */
  function SetField(cols: seq<Column>, entry: Record, f: Field): Record {
    if Known(cols, f) then entry[f.0 := FormatField(cols, f)] else entry
  }

  function KnownKeys(cols: seq<Column>, body: Body): set<string> {
    set i | 0 <= i < |body| && Known(cols, body[i]) :: body[i].0
  }

  /**
    `updateEntryData`: the record gains every body property that names a
    column, formatted by that column; properties naming no column are
    ignored, and the record's other fields are untouched.
   */
  function UpdateEntryData(cols: seq<Column>, entry: Record, body: Body): (r: Record)
    ensures r.Keys == entry.Keys + KnownKeys(cols, body)
    ensures forall k :: k in entry && k !in KnownKeys(cols, body) ==> r[k] == entry[k]
    ensures forall k :: k in KnownKeys(cols, body) ==> r[k] == FormatField(cols, (k, Get(body, k)))
  {
    if |body| == 0 then entry
    else
      var prev := UpdateEntryData(cols, entry, body[..|body| - 1]);
      SetFieldStep(cols, entry, body, prev);
      SetField(cols, prev, body[|body| - 1])
  }

  /** A field the body does not name keeps its value through `updateEntryData`. */
  lemma UnnamedFieldKept(cols: seq<Column>, entry: Record, body: Body, k: string)
    requires k !in KnownKeys(cols, body)
    ensures Lookup(UpdateEntryData(cols, entry, body), k) == Lookup(entry, k)
  {
  }

  /** One more property applied on top of the record built from the others. */
  lemma {:induction false} SetFieldStep(cols: seq<Column>, entry: Record, body: Body, prev: Record)
    requires |body| > 0
    requires prev.Keys == entry.Keys + KnownKeys(cols, body[..|body| - 1])
    requires forall k :: k in entry && k !in KnownKeys(cols, body[..|body| - 1]) ==> prev[k] == entry[k]
    requires forall k :: k in KnownKeys(cols, body[..|body| - 1]) ==>
               prev[k] == FormatField(cols, (k, Get(body[..|body| - 1], k)))
    ensures var r := SetField(cols, prev, body[|body| - 1]);
            && r.Keys == entry.Keys + KnownKeys(cols, body)
            && (forall k :: k in entry && k !in KnownKeys(cols, body) ==> r[k] == entry[k])
            && (forall k :: k in KnownKeys(cols, body) ==> r[k] == FormatField(cols, (k, Get(body, k))))
  {
    var init := body[..|body| - 1];
    var last := body[|body| - 1];
    KnownKeysOfSnoc(cols, body);
    forall k | k != last.0
      ensures Get(body, k) == Get(init, k)
    {
    }
  }

  /** The known keys of a body are those of all but its last property, plus that one's if known. */
  lemma {:induction false} KnownKeysOfSnoc(cols: seq<Column>, body: Body)
    requires |body| > 0
    ensures KnownKeys(cols, body) == KnownKeys(cols, body[..|body| - 1])
              + (if Known(cols, body[|body| - 1]) then {body[|body| - 1].0} else {})
  {
    var init := body[..|body| - 1];
    var last := body[|body| - 1];
    var added := if Known(cols, last) then {last.0} else {};
    forall k | k in KnownKeys(cols, body) ensures k in KnownKeys(cols, init) + added {
      var i :| 0 <= i < |body| && Known(cols, body[i]) && body[i].0 == k;
      if i < |body| - 1 {
        assert init[i] == body[i];
      }
    }
    forall k | k in KnownKeys(cols, init) ensures k in KnownKeys(cols, body) {
      var i :| 0 <= i < |init| && Known(cols, init[i]) && init[i].0 == k;
      assert body[i] == init[i];
    }
  }
}
