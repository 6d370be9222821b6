/**
  The catalog: the stored records as one list ordered by `#` and then by
  Name, read fifty at a time. The list is built by enumerating the store's
  keys (in an order the model takes as a parameter) and sorting with a
  stable sort.
 */
module Catalog {
  import opened Decimal
  import opened Json
  import opened Request
  import opened Store
  import Text

  const EntriesPerPage: nat := 50

  /** The `#` a record is sorted by; a missing or null `#` compares as 0, as JavaScript's `<` treats null. */
  function NumberKey(r: Record): int {
    if "#" in r && r["#"].Num? then r["#"].n else 0
  }

  /** The Name a record is sorted by; a missing or non-string Name compares as the empty string. */
  function NameKey(r: Record): string {
    if "Name" in r && r["Name"].Str? then r["Name"].s else ""
  }

  /** The comparator of `convertMapToSortedList` returns -1: `a` sorts strictly before `b`. */
  predicate Before(a: Record, b: Record) {
    NumberKey(a) < NumberKey(b) || (NumberKey(a) == NumberKey(b) && Text.LexLess(NameKey(a), NameKey(b)))
  }

  /**
    The comparator passed to `list.sort`, as written: -1, 1 or 0 by `#`, and
    on equal `#` by Name.
   */
  function Compare(a: Record, b: Record): (c: int)
    ensures c == -1 || c == 0 || c == 1
  {
    if NumberKey(a) < NumberKey(b) then -1
    else if NumberKey(a) > NumberKey(b) then 1
    else if Text.LexLess(NameKey(a), NameKey(b)) then -1
    else if Text.LexLess(NameKey(b), NameKey(a)) then 1
    else 0
  }

  /**
    The comparator is consistent: it answers -1 exactly when `a` sorts before
    `b`, 1 exactly when `b` sorts before `a`, and 0 exactly when both sort keys
    are equal.
   */
  lemma {:induction false} CompareAgreesWithBefore(a: Record, b: Record)
    ensures Compare(a, b) == -1 <==> Before(a, b)
    ensures Compare(a, b) == 1 <==> Before(b, a)
    ensures Compare(a, b) == 0 <==> NumberKey(a) == NumberKey(b) && NameKey(a) == NameKey(b)
  {
    if NumberKey(a) == NumberKey(b) {
      if NameKey(a) == NameKey(b) {
        Text.LexLessIrreflexive(NameKey(a));
      } else {
        Text.LexLessTotal(NameKey(a), NameKey(b));
        if Text.LexLess(NameKey(a), NameKey(b)) && Text.LexLess(NameKey(b), NameKey(a)) {
          Text.LexLessTransitive(NameKey(a), NameKey(b), NameKey(a));
          Text.LexLessIrreflexive(NameKey(a));
        }
      }
    }
  }

  lemma BeforeIrreflexive(a: Record)
    ensures !Before(a, a)
  {
    Text.LexLessIrreflexive(NameKey(a));
  }

  lemma BeforeTransitive(a: Record, b: Record, c: Record)
    requires Before(a, b) && Before(b, c)
    ensures Before(a, c)
  {
    if NumberKey(a) == NumberKey(b) == NumberKey(c) {
      Text.LexLessTransitive(NameKey(a), NameKey(b), NameKey(c));
    }
  }

  /** Records whose sort keys differ are ordered one way or the other. */
  lemma BeforeTotal(a: Record, b: Record)
    requires NumberKey(a) != NumberKey(b) || NameKey(a) != NameKey(b)
    ensures Before(a, b) || Before(b, a)
  {
    if NumberKey(a) == NumberKey(b) {
      Text.LexLessTotal(NameKey(a), NameKey(b));
    }
  }

  /** No record sorts strictly before one placed earlier in the list. */
  predicate Ascending(list: seq<Record>) {
    forall i, j :: 0 <= i < j < |list| ==> !Before(list[j], list[i])
  }

  /**
    One step of a stable insertion sort: `x` goes after every element it does
    not sort strictly before.
   */
  function Insert(x: Record, list: seq<Record>): (r: seq<Record>)
    requires Ascending(list)
    ensures Ascending(r)
    ensures multiset(r) == multiset(list) + multiset{x}
    ensures |r| == |list| + 1
  {
    if |list| == 0 then [x]
    else if Before(x, list[0]) then
      forall j | 0 <= j < |list|
        ensures !Before(list[j], x)
      {
        if Before(list[j], x) {
          BeforeTransitive(list[j], x, list[0]);
          BeforeIrreflexive(list[0]);
        }
      }
      ConsAscending(x, list);
      [x] + list
    else
      var rest := Insert(x, list[1..]);
      assert list == [list[0]] + list[1..];
      forall j | 0 <= j < |rest|
        ensures !Before(rest[j], list[0])
      {
        assert rest[j] in multiset(list[1..]) + multiset{x};
        if rest[j] != x {
          var i :| 0 <= i < |list[1..]| && list[1..][i] == rest[j];
          assert list[i + 1] == rest[j];
        }
      }
      ConsAscending(list[0], rest);
      [list[0]] + rest
  }

  /** A record no later record sorts before can be placed in front of an ascending list. */
  lemma ConsAscending(a: Record, rest: seq<Record>)
    requires Ascending(rest)
    requires forall j :: 0 <= j < |rest| ==> !Before(rest[j], a)
    ensures Ascending([a] + rest)
  {
    var l := [a] + rest;
    forall i, j | 0 <= i < j < |l|
      ensures !Before(l[j], l[i])
    {
      assert l[j] == rest[j - 1];
      if i > 0 {
        assert l[i] == rest[i - 1];
      }
    }
  }

  /** `list.sort(...)`: a stable sort of the records by `#`, then Name. */
  function Sort(s: seq<Record>): (r: seq<Record>)
    ensures Ascending(r)
    ensures multiset(r) == multiset(s)
    ensures |r| == |s|
  {
    if |s| == 0 then []
    else
      assert s == s[..|s| - 1] + [s[|s| - 1]];
      Insert(s[|s| - 1], Sort(s[..|s| - 1]))
  }

  /** `order` lists every key of the store exactly once: the model of `Object.keys(map)`. */
  predicate IsEnumeration(order: seq<string>, store: Store) {
    && (forall i, j :: 0 <= i < j < |order| ==> order[i] != order[j])
    && (forall i :: 0 <= i < |order| ==> order[i] in store)
    && (forall k :: k in store ==> k in order)
  }

  /** The store's records in the order of `order`. */
  function ValuesInOrder(store: Store, order: seq<string>): (r: seq<Record>)
    requires forall i :: 0 <= i < |order| ==> order[i] in store
    ensures |r| == |order|
    ensures forall i :: 0 <= i < |order| ==> r[i] == store[order[i]]
  {
    seq(|order|, i requires 0 <= i < |order| => store[order[i]])
  }

  /**
    `convertMapToSortedList`: every stored record, once each, sorted by `#`
    and then Name.
   */
  function SortedCatalog(store: Store, order: seq<string>): (list: seq<Record>)
    requires IsEnumeration(order, store)
    ensures Ascending(list)
    ensures multiset(list) == multiset(ValuesInOrder(store, order))
    ensures |list| == |store|
    ensures forall r :: r in list <==> r in store.Values
  {
    var values := ValuesInOrder(store, order);
    EnumerationCovers(order, store);
    forall r | r in store.Values
      ensures r in values
    {
      var k :| k in store && store[k] == r;
      var i :| 0 <= i < |order| && order[i] == k;
      assert values[i] == r;
    }
    var list := Sort(values);
    forall r
      ensures r in list <==> r in values
    {
      assert r in list <==> r in multiset(list);
    }
    list
  }

  /** An enumeration is exactly as long as the store has keys. */
  lemma {:induction false} EnumerationCovers(order: seq<string>, store: Store)
    requires IsEnumeration(order, store)
    ensures |order| == |store|
  {
    DistinctCardinality(order);
    assert store.Keys == set i | 0 <= i < |order| :: order[i];
  }

  lemma {:induction false} DistinctCardinality(order: seq<string>)
    requires forall i, j :: 0 <= i < j < |order| ==> order[i] != order[j]
    ensures |set i | 0 <= i < |order| :: order[i]| == |order|
  {
    if |order| > 0 {
      var init := order[..|order| - 1];
      DistinctCardinality(init);
      var last := order[|order| - 1];
      assert (set i | 0 <= i < |order| :: order[i])
        == (set i | 0 <= i < |init| :: init[i]) + {last};
      assert last !in (set i | 0 <= i < |init| :: init[i]);
    }
  }

  function Min(a: int, b: int): int {
    if a <= b then a else b
  }

  /**
    Page `p` of the catalog: the entries from position 50·p on, at most fifty
    of them, and none once 50·p reaches the end of the list.
   */
  function Page(list: seq<Record>, p: nat): (r: seq<Record>)
    ensures |r| <= EntriesPerPage
    ensures EntriesPerPage * p >= |list| ==> r == []
    ensures EntriesPerPage * p < |list| ==> |r| == Min(EntriesPerPage, |list| - EntriesPerPage * p)
    ensures forall i :: 0 <= i < |r| ==> EntriesPerPage * p + i < |list| && r[i] == list[EntriesPerPage * p + i]
  {
    var first := Min(EntriesPerPage * p, |list|);
    var last := Min(EntriesPerPage * (p + 1), |list|);
    list[first..last]
  }

  /** Every entry of the catalog is on exactly one page: entry i is entry i % 50 of page i / 50. */
  lemma PagesPartition(list: seq<Record>, i: nat)
    requires i < |list|
    ensures i % EntriesPerPage < |Page(list, i / EntriesPerPage)|
    ensures Page(list, i / EntriesPerPage)[i % EntriesPerPage] == list[i]
  {
    var p := i / EntriesPerPage;
    assert EntriesPerPage * p + i % EntriesPerPage == i;
  }

  /**
    `Array.prototype.slice(start, end)`: negative positions count back from
    the end of the array; both are clamped to the array's bounds.
   */
  function JsSlice(s: seq<Record>, start: int, end: int): (r: seq<Record>)
    ensures |r| <= |s|
    ensures 0 <= start <= end <= |s| ==> r == s[start..end]
  {
    var from := if start < 0 then (if |s| + start < 0 then 0 else |s| + start) else Min(start, |s|);
    var to := if end < 0 then (if |s| + end < 0 then 0 else |s| + end) else Min(end, |s|);
    if from < to then s[from..to] else []
  }

  /** For a non-negative page number the slice taken by the handler is exactly `Page`. */
  lemma SliceIsPage(list: seq<Record>, p: nat)
    ensures JsSlice(list, EntriesPerPage * p, EntriesPerPage * (p + 1)) == Page(list, p)
  {
  }

  /**
    The page step of `getPokemonCatalog` as written: the page text goes
    through `toInt`; the guard `page != null || page < 0` lets every number
    through (and refuses null, for which `null < 0` is false), so a negative
    page reaches `slice` with negative positions. `None` stands for the
    bad-request reply.
   */
  function PageRequestAsWritten(list: seq<Record>, pageText: string): (r: Option<seq<Record>>)
    ensures r.None? <==> ParseLeadingInt(pageText).None?
    ensures r.Some? ==> |r.value| <= EntriesPerPage
  {
    var page := Schema.ToInt(Str(pageText));
    if page.Num? then Some(JsSlice(list, EntriesPerPage * page.n, EntriesPerPage * (page.n + 1)))
    else None
  }

  /** The page step with the evidently intended guard: a page number must be a non-negative integer. */
  function PageRequest(list: seq<Record>, pageText: string): (r: Option<seq<Record>>)
    ensures r.None? <==> (ParseLeadingInt(pageText).None? || ParseLeadingInt(pageText).value < 0)
    ensures r.Some? ==> r.value == Page(list, ParseLeadingInt(pageText).value)
  {
    var page := Schema.ToInt(Str(pageText));
    if page.Num? && page.n >= 0 then Some(Page(list, page.n))
    else None
  }

  /**
    A page request for page -2 of a catalog of 100 entries is answered, as
    written, with the first fifty entries; the corrected step refuses it.
   */
  lemma NegativePageServesFirstPage(list: seq<Record>)
    requires |list| == 100
    ensures PageRequestAsWritten(list, "-2") == Some(list[..50])
    ensures PageRequest(list, "-2") == None
  {
    ParseNegativeDigitsThen("2", "");
    assert "-" + "2" + "" == "-2";
  }

  /** As written and corrected agree on every non-negative page number. */
  lemma PageRequestAgrees(list: seq<Record>, pageText: string)
    requires ParseLeadingInt(pageText).Some? && ParseLeadingInt(pageText).value >= 0
    ensures PageRequestAsWritten(list, pageText) == PageRequest(list, pageText)
  {
    SliceIsPage(list, ParseLeadingInt(pageText).value);
  }
}
