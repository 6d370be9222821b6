/**
  The service as a whole: the store, the sorted catalog kept beside it, and
  the flag that marks the catalog as out of date. Loading the data file
  builds both; every successful create, update or delete saves the file and
  raises the flag; a catalog request re-sorts only when the flag is raised
  and lowers it again.
 */
module Service {
  import opened Decimal
  import opened Request
  import opened Store
  import opened Catalog
  import opened Csv

  datatype State = State(store: Store, list: seq<Record>, stale: bool)

  /** The reply to a create, update or delete request and the state after it. */
  datatype Step = Step(outcome: Outcome, state: State)

  /** The reply to a catalog request (`None` is the bad-request reply) and the state after it. */
  datatype CatalogStep = CatalogStep(page: Option<seq<Record>>, state: State)

  /** `list` is the store's records, sorted, for some enumeration of the store's keys. */
  ghost predicate IsCatalogOf(list: seq<Record>, store: Store) {
    exists order :: IsEnumeration(order, store) && list == SortedCatalog(store, order)
  }

  /** While the flag is down the kept list is a catalog of the current store. */
  ghost predicate Fresh(s: State) {
    !s.stale ==> IsCatalogOf(s.list, s.store)
  }

  /** What holds of every state the service reaches. */
  ghost predicate Invariant(s: State) {
    WellKeyed(s.store) && Fresh(s)
  }

  /**
    Start-up: the data file is read into the store and the catalog is sorted
    from it. `order` is the enumeration order of the store's keys.
   */
  function Load(text: string, order: seq<string>): (s: State)
    requires IsEnumeration(order, ParseFile(text))
    ensures s.store == ParseFile(text) && !s.stale
    ensures Ascending(s.list) && |s.list| == |s.store|
    ensures forall r :: r in s.list <==> r in s.store.Values
  {
    State(ParseFile(text), SortedCatalog(ParseFile(text), order), false)
  }

  lemma {:induction false} LoadEstablishesInvariant(text: string, order: seq<string>)
    requires IsEnumeration(order, ParseFile(text))
    ensures Invariant(Load(text, order))
  {
    assert IsEnumeration(order, ParseFile(text)) && Load(text, order).list == SortedCatalog(ParseFile(text), order);
  }

  /** A successful change replaces the store and marks the catalog out of date; any other reply changes nothing. */
  function Apply(s: State, t: Transition): (r: Step)
    ensures r.outcome == t.outcome
    ensures t.outcome.Ok? ==> r.state == State(t.store, s.list, true)
    ensures !t.outcome.Ok? ==> r.state == s
  {
    if t.outcome.Ok? then Step(Ok, State(t.store, s.list, true)) else Step(t.outcome, s)
  }

  function Create(s: State, body: Body): (r: Step)
    ensures r.outcome == CreatePokemon(s.store, body).outcome
    ensures r.outcome.Ok? ==> r.state.stale && r.state.store == CreatePokemon(s.store, body).store
    ensures !r.outcome.Ok? ==> r.state == s
  {
    Apply(s, CreatePokemon(s.store, body))
  }

  function Update(s: State, name: string, body: Body): (r: Step)
    ensures r.outcome == UpdatePokemon(s.store, name, body).outcome
    ensures r.outcome.Ok? ==> r.state.stale && r.state.store == UpdatePokemon(s.store, name, body).store
    ensures !r.outcome.Ok? ==> r.state == s
  {
    Apply(s, UpdatePokemon(s.store, name, body))
  }

  function Delete(s: State, name: string): (r: Step)
    ensures r.outcome == DeletePokemon(s.store, name).outcome
    ensures r.outcome.Ok? ==> r.state.stale && r.state.store == DeletePokemon(s.store, name).store
    ensures !r.outcome.Ok? ==> r.state == s
  {
    Apply(s, DeletePokemon(s.store, name))
  }

  lemma {:induction false} ApplyKeepsFresh(s: State, t: Transition)
    requires Fresh(s)
    requires !t.outcome.Ok? ==> t.store == s.store
    ensures Fresh(Apply(s, t).state)
  {
  }

  lemma {:induction false} CreateKeepsInvariant(s: State, body: Body)
    requires Invariant(s)
    ensures Invariant(Create(s, body).state)
  {
    CreateKeepsKeys(s.store, body);
    ApplyKeepsFresh(s, CreatePokemon(s.store, body));
  }

  lemma {:induction false} UpdateKeepsInvariant(s: State, name: string, body: Body)
    requires Invariant(s)
    ensures Invariant(Update(s, name, body).state)
  {
    UpdateKeepsKeys(s.store, name, body);
    ApplyKeepsFresh(s, UpdatePokemon(s.store, name, body));
  }

  lemma {:induction false} DeleteKeepsInvariant(s: State, name: string)
    requires Invariant(s)
    ensures Invariant(Delete(s, name).state)
  {
    DeleteKeepsKeys(s.store, name);
    ApplyKeepsFresh(s, DeletePokemon(s.store, name));
  }

  /**
    `getPokemonCatalog` with the corrected page guard: a page text that is not
    a non-negative integer is refused and changes nothing; otherwise the
    catalog is re-sorted if it is out of date (enumerating the keys in
    `order`) and the requested page of it is the reply.
   */
  function CatalogRequest(s: State, pageText: string, order: seq<string>): (r: CatalogStep)
    requires IsEnumeration(order, s.store)
    ensures r.page.None? <==> ParseLeadingInt(pageText).None? || ParseLeadingInt(pageText).value < 0
    ensures r.page.None? ==> r.state == s
    ensures r.page.Some? ==> r.state.store == s.store && !r.state.stale
    ensures r.page.Some? ==> r.page.value == Page(r.state.list, ParseLeadingInt(pageText).value)
    ensures r.page.Some? && !s.stale ==> r.state == s
  {
    var list := if s.stale then SortedCatalog(s.store, order) else s.list;
    var page := PageRequest(list, pageText);
    if page.None? then CatalogStep(None, s)
    else CatalogStep(page, State(s.store, list, false))
  }

  /** A served page is a page of a catalog of the store as it is now, and the state stays fresh. */
  lemma {:induction false} CatalogServesCurrentStore(s: State, pageText: string, order: seq<string>)
    requires Invariant(s)
    requires IsEnumeration(order, s.store)
    ensures Invariant(CatalogRequest(s, pageText, order).state)
    ensures var r := CatalogRequest(s, pageText, order);
            r.page.Some? ==> IsCatalogOf(r.state.list, s.store)
  {
    var r := CatalogRequest(s, pageText, order);
    if r.page.Some? && s.stale {
      assert r.state.list == SortedCatalog(s.store, order);
    }
  }

  /**
    Any two catalogs of the same store hold the same records, equally many,
    in ascending order: the enumeration order decides only the order of
    records whose `#` and Name are both equal.
   */
  lemma {:induction false} CatalogsAgree(a: seq<Record>, b: seq<Record>, store: Store)
    requires IsCatalogOf(a, store) && IsCatalogOf(b, store)
    ensures Ascending(a) && Ascending(b) && |a| == |b|
    ensures forall r :: r in a <==> r in b
  {
    var oa :| IsEnumeration(oa, store) && a == SortedCatalog(store, oa);
    var ob :| IsEnumeration(ob, store) && b == SortedCatalog(store, ob);
  }
}
