/**
  The in-memory store, a map from Name to record, and the four request
  handlers that read or rewrite it. Each handler is a pure transition from
  the store and its input to an outcome and the next store; the HTTP status
  codes and response bodies are represented by the outcome alone.
 */
module Store {
  import opened Decimal
  import opened Json
  import opened Schema
  import opened Request

  type Store = map<string, Record>

  datatype Outcome = Ok | NotFound | Conflict | BadRequest(message: string)

  datatype Transition = Transition(outcome: Outcome, store: Store)

  /** The value the body gives for Name (null when it gives none). */
  function BodyName(body: Body): Value {
    Get(body, Columns[NameColumn].name)
  }

  /** A body that passes create validation names a non-empty string of at most 45 characters. */
  lemma {:induction false} CreateValidNameIsString(body: Body)
    requires ValidateForCreate(Columns, body).ok
    ensures BodyName(body).Str? && BodyName(body).s != "" && |BodyName(body).s| <= 45
  {
    assert ValidFor(Columns, NameColumn, body);
    RequiredTextColumnsAcceptExactly(BodyName(body));
  }

  /** A body that passes update validation gives for Name either nothing or a non-empty string. */
  lemma {:induction false} UpdateValidNameIsString(body: Body)
    requires ValidateForUpdate(Columns, body).ok
    ensures BodyName(body).Null? || (BodyName(body).Str? && BodyName(body).s != "")
  {
    if !BodyName(body).Null? {
      ColumnIndexOfName(NameColumn);
      NamedColumnField(Columns, body, Columns[NameColumn].name);
      RequiredTextColumnsAcceptExactly(BodyName(body));
    }
  }

  /** `getPokemon`: the record stored under `name`, if any. */
  function GetPokemon(store: Store, name: string): (r: Option<Record>)
    ensures r.Some? <==> name in store
    ensures r.Some? ==> r.value == store[name]
  {
    if name in store then Some(store[name]) else None
  }

  /** `deletePokemon`: remove the record under `name`. */
  function DeletePokemon(store: Store, name: string): (t: Transition)
    ensures name !in store ==> t == Transition(NotFound, store)
    ensures name in store ==> t.outcome == Ok
    ensures name in store ==> t.store.Keys == store.Keys - {name}
    ensures forall k :: k in t.store ==> k in store && t.store[k] == store[k]
  {
    if name !in store then Transition(NotFound, store)
    else Transition(Ok, store - {name})
  }

  /**
    `createPokemon`: validate every column; refuse a Name already stored;
    otherwise store, under the body's Name, a record holding the formatted
    values of exactly the body's properties that name a column.
   */
  function CreatePokemon(store: Store, body: Body): (t: Transition)
    ensures !ValidateForCreate(Columns, body).ok <==> t.outcome.BadRequest?
    ensures t.outcome.BadRequest? ==> t.outcome.message == ValidateForCreate(Columns, body).Message()
    ensures !t.outcome.Ok? ==> t.store == store
    ensures t.outcome.Conflict? <==> ValidateForCreate(Columns, body).ok && JsString(BodyName(body)) in store
    ensures ValidateForCreate(Columns, body).ok && JsString(BodyName(body)) !in store ==> t.outcome == Ok
    ensures t.outcome.Ok? ==>
              var name := BodyName(body).s;
              && BodyName(body).Str? && name != ""
              && name !in store
              && t.store.Keys == store.Keys + {name}
              && t.store[name] == UpdateEntryData(Columns, map[], body)
    ensures forall k :: k in store ==> k in t.store && t.store[k] == store[k]
  {
    var v := ValidateForCreate(Columns, body);
    if !v.ok then Transition(BadRequest(v.Message()), store)
    else
      CreateValidNameIsString(body);
      var name := JsString(BodyName(body));
      if name in store then Transition(Conflict, store)
      else Transition(Ok, store[name := UpdateEntryData(Columns, map[], body)])
  }

  /**
    `updatePokemon` exactly as written: an unknown name is not found and an
    invalid body is refused; otherwise the record is merged as in
    `MergeAsWritten`.
   */
  function UpdatePokemonAsWritten(store: Store, name: string, body: Body): (t: Transition)
    ensures name !in store ==> t == Transition(NotFound, store)
    ensures name in store ==> (t.outcome.BadRequest? <==> !ValidateForUpdate(Columns, body).ok)
    ensures t.outcome.BadRequest? ==> t.outcome.message == ValidateForUpdate(Columns, body).Message()
    ensures !t.outcome.Ok? ==> t.store == store
    ensures name in store && ValidateForUpdate(Columns, body).ok ==> t == MergeAsWritten(store, name, body)
  {
    if name !in store then Transition(NotFound, store)
    else
      var v := ValidateForUpdate(Columns, body);
      if !v.ok then Transition(BadRequest(v.Message()), store)
      else MergeAsWritten(store, name, body)
  }

  /**
    The merge step of `updatePokemon` as written: when the body carries a
    Name, the merged record is first stored under that Name and then the
    entry under the path name is deleted — which, when the two names are
    equal, removes the record the request was updating.
   */
  function MergeAsWritten(store: Store, name: string, body: Body): (t: Transition)
    requires name in store
    ensures t.outcome == Ok || t.outcome == Conflict
    ensures t.outcome.Conflict? ==> t.store == store
    ensures !BodyName(body).Null? && JsString(BodyName(body)) == name ==> t.outcome == Ok && t.store == store - {name}
    ensures BodyName(body).Null? || JsString(BodyName(body)) != name ==> t == Merge(store, name, body)
  {
    var entry := UpdateEntryData(Columns, store[name], body);
    if !BodyName(body).Null? then
      var newName := JsString(BodyName(body));
      if name != newName && newName in store then Transition(Conflict, store)
      else Transition(Ok, store[newName := entry] - {name})
    else Transition(Ok, store[name := entry])
  }

  /**
    `updatePokemon` with the rename step corrected: an unknown name is not
    found and an invalid body is refused; otherwise the record is merged as in
    `Merge`.
   */
  function UpdatePokemon(store: Store, name: string, body: Body): (t: Transition)
    ensures name !in store ==> t == Transition(NotFound, store)
    ensures name in store ==> (t.outcome.BadRequest? <==> !ValidateForUpdate(Columns, body).ok)
    ensures t.outcome.BadRequest? ==> t.outcome.message == ValidateForUpdate(Columns, body).Message()
    ensures !t.outcome.Ok? ==> t.store == store
    ensures name in store && ValidateForUpdate(Columns, body).ok ==> t == Merge(store, name, body)
  {
    if name !in store then Transition(NotFound, store)
    else
      var v := ValidateForUpdate(Columns, body);
      if !v.ok then Transition(BadRequest(v.Message()), store)
      else Merge(store, name, body)
  }

  /**
    The merge step with the rename corrected: the body's properties are
    merged into the record; a body Name naming another stored record is a
    conflict; a new Name moves the record, and the entry under the path name
    is removed only when the new Name differs from it.
   */
  function Merge(store: Store, name: string, body: Body): (t: Transition)
    requires name in store
    ensures t.outcome == Ok || t.outcome == Conflict
    ensures t.outcome.Conflict? ==> t.store == store
    ensures t.outcome.Conflict? <==>
              !BodyName(body).Null? && JsString(BodyName(body)) != name && JsString(BodyName(body)) in store
    ensures t.outcome.Ok? && (BodyName(body).Null? || JsString(BodyName(body)) == name) ==>
              && t.store.Keys == store.Keys
              && t.store[name] == UpdateEntryData(Columns, store[name], body)
              && (forall k :: k in store && k != name ==> t.store[k] == store[k])
    ensures t.outcome.Ok? && !BodyName(body).Null? && JsString(BodyName(body)) != name ==>
              var newName := JsString(BodyName(body));
              && t.store.Keys == store.Keys - {name} + {newName}
              && t.store[newName] == UpdateEntryData(Columns, store[name], body)
              && (forall k :: k in store && k != name && k != newName ==> t.store[k] == store[k])
  {
    var entry := UpdateEntryData(Columns, store[name], body);
    if !BodyName(body).Null? then
      var newName := JsString(BodyName(body));
      if name != newName && newName in store then Transition(Conflict, store)
      else if name == newName then Transition(Ok, store[name := entry])
      else Transition(Ok, store[newName := entry] - {name})
    else Transition(Ok, store[name := entry])
  }

  /** After a rename the record's own Name field holds the new name. */
  lemma {:induction false} RenamedRecordCarriesName(entry: Record, body: Body)
    requires BodyName(body).Str?
    ensures "Name" in UpdateEntryData(Columns, entry, body)
    ensures UpdateEntryData(Columns, entry, body)["Name"] == BodyName(body)
  {
    var k := Columns[NameColumn].name;
    assert k == "Name";
    ColumnIndexOfName(NameColumn);
    NamedColumnField(Columns, body, k);
    var r := UpdateEntryData(Columns, entry, body);
    assert r[k] == FormatField(Columns, (k, Get(body, k)));
    assert !Columns[NameColumn].kind.IntColumn?;
  }

  /**
    Updating a record with a body whose Name is the record's own name: the
    code as written answers success and loses the record; the corrected
    handler keeps it, updated.
   */
  lemma {:induction false} SelfRenameDropsRecord(store: Store, name: string)
    requires name in store && 0 < |name| <= 45
    ensures UpdatePokemonAsWritten(store, name, [("Name", Str(name))]).outcome == Ok
    ensures name !in UpdatePokemonAsWritten(store, name, [("Name", Str(name))]).store
  {
    var body := [("Name", Str(name))];
    ColumnIndexOfName(NameColumn);
    assert Known(Columns, body[0]) && FieldValid(Columns, body[0]);
  }

  lemma {:induction false} SelfRenameKeepsRecord(store: Store, name: string)
    requires name in store && 0 < |name| <= 45
    ensures UpdatePokemon(store, name, [("Name", Str(name))]).outcome == Ok
    ensures name in UpdatePokemon(store, name, [("Name", Str(name))]).store
    ensures UpdatePokemon(store, name, [("Name", Str(name))]).store.Keys == store.Keys
  {
    var body := [("Name", Str(name))];
    ColumnIndexOfName(NameColumn);
    assert Known(Columns, body[0]) && FieldValid(Columns, body[0]);
  }

  /** After a successful create, looking the new Name up gives exactly the formatted body. */
  lemma {:induction false} CreateThenGet(store: Store, body: Body)
    requires CreatePokemon(store, body).outcome == Ok
    ensures var r := GetPokemon(CreatePokemon(store, body).store, BodyName(body).s);
            && r.Some?
            && r.value.Keys == KnownKeys(Columns, body)
            && forall k :: k in r.value ==> r.value[k] == FormatField(Columns, (k, Get(body, k)))
  {
  }

  /** Every record is stored under its own Name, read as a property key. */
  predicate WellKeyed(store: Store) {
    forall k :: k in store ==> k == JsString(Lookup(store[k], "Name"))
  }

  lemma {:induction false} CreateKeepsKeys(store: Store, body: Body)
    requires WellKeyed(store)
    ensures WellKeyed(CreatePokemon(store, body).store)
  {
    var t := CreatePokemon(store, body);
    if t.outcome.Ok? {
      RenamedRecordCarriesName(map[], body);
    }
  }

  lemma {:induction false} UpdateKeepsKeys(store: Store, name: string, body: Body)
    requires WellKeyed(store)
    ensures WellKeyed(UpdatePokemon(store, name, body).store)
  {
    if name in store && ValidateForUpdate(Columns, body).ok {
      if BodyName(body).Null? {
        MergeWithoutNameKeepsKeys(store, name, body);
      } else {
        MergeWithNameKeepsKeys(store, name, body);
      }
    }
  }

  lemma {:induction false} MergeWithoutNameKeepsKeys(store: Store, name: string, body: Body)
    requires WellKeyed(store) && name in store
    requires ValidateForUpdate(Columns, body).ok && BodyName(body).Null?
    ensures WellKeyed(Merge(store, name, body).store)
  {
    var entry := UpdateEntryData(Columns, store[name], body);
    NameKeptWithoutRename(store[name], body);
    assert Merge(store, name, body).store == store[name := entry];
    KeyedAfterPut(store, name, entry);
  }

  lemma {:induction false} MergeWithNameKeepsKeys(store: Store, name: string, body: Body)
    requires WellKeyed(store) && name in store
    requires ValidateForUpdate(Columns, body).ok && !BodyName(body).Null?
    ensures WellKeyed(Merge(store, name, body).store)
  {
    if Merge(store, name, body).outcome.Ok? {
      UpdateValidNameIsString(body);
      RenamedRecordCarriesName(store[name], body);
      assert Lookup(UpdateEntryData(Columns, store[name], body), "Name") == BodyName(body);
      if JsString(BodyName(body)) == name {
        SameNameKeepsKeys(store, name, body);
      } else {
        RenameKeepsKeys(store, name, body);
      }
    }
  }

  lemma {:induction false} SameNameKeepsKeys(store: Store, name: string, body: Body)
    requires WellKeyed(store) && name in store
    requires BodyName(body).Str? && BodyName(body).s == name
    requires Lookup(UpdateEntryData(Columns, store[name], body), "Name") == BodyName(body)
    ensures WellKeyed(Merge(store, name, body).store)
  {
    KeyedAfterPut(store, name, UpdateEntryData(Columns, store[name], body));
  }

  lemma {:induction false} RenameKeepsKeys(store: Store, name: string, body: Body)
    requires WellKeyed(store) && name in store
    requires BodyName(body).Str? && BodyName(body).s != name
    requires Lookup(UpdateEntryData(Columns, store[name], body), "Name") == BodyName(body)
    ensures WellKeyed(Merge(store, name, body).store)
  {
    KeyedAfterMove(store, name, UpdateEntryData(Columns, store[name], body));
  }

  lemma KeyedAfterPut(store: Store, k: string, r: Record)
    requires WellKeyed(store)
    requires k == JsString(Lookup(r, "Name"))
    ensures WellKeyed(store[k := r])
  {
  }

  /** Moving a record to the key its Name gives, dropping the old key, keeps the store well keyed. */
  lemma KeyedAfterMove(store: Store, from: string, r: Record)
    requires WellKeyed(store)
    ensures WellKeyed(store[JsString(Lookup(r, "Name")) := r] - {from})
  {
  }

  /** A valid update body that gives no Name leaves the record's Name as it was. */
  lemma {:induction false} NameKeptWithoutRename(entry: Record, body: Body)
    requires ValidateForUpdate(Columns, body).ok
    requires BodyName(body).Null?
    ensures Lookup(UpdateEntryData(Columns, entry, body), "Name") == Lookup(entry, "Name")
  {
    NameColumnFacts();
    NullColumnNotWritten(Columns, body, "Name");
    UnnamedFieldKept(Columns, entry, body, "Name");
  }

  lemma DeleteKeepsKeys(store: Store, name: string)
    requires WellKeyed(store)
    ensures WellKeyed(DeletePokemon(store, name).store)
  {
  }
}
