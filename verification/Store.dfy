/** The in-memory store of sample.go behind the interfaces of store.go. */
module Store {
  import opened Wrappers
  import opened Collections
  import opened Strings
  import opened Values

  datatype Entry = Entry(key: Str, item: Item)

  /** A store call may fail; a failing call changes nothing. */
  datatype StoreError = StoreError

  function Lookup(items: map<Str, Item>, pk: Str): Item {
    if pk in items then items[pk] else NilItem
  }

  predicate Before(a: Str, b: Str) {
    Leq(a, b) && a != b
  }

  predicate Ascending(keys: seq<Str>) {
    forall i, j :: 0 <= i < j < |keys| ==> Before(keys[i], keys[j])
  }

  function Keys(page: seq<Entry>): seq<Str> {
    seq(|page|, i requires 0 <= i < |page| => page[i].key)
  }

  /** Every stored item exactly once, in ascending key order. */
  ghost predicate IsListing(items: map<Str, Item>, page: seq<Entry>) {
    && Ascending(Keys(page))
    && (forall i :: 0 <= i < |page| ==> page[i].key in items && page[i].item == items[page[i].key])
    && (forall k :: k in items ==> k in Keys(page))
  }

  lemma ListingHead(items: map<Str, Item>, p: seq<Entry>, q: seq<Entry>)
    requires IsListing(items, p) && IsListing(items, q) && p != [] && q != []
    ensures Leq(q[0].key, p[0].key)
  {
    assert p[0].key in Keys(q);
    var j :| 0 <= j < |q| && Keys(q)[j] == p[0].key;
    assert Keys(q)[0] == q[0].key;
    if j > 0 {
      assert Before(Keys(q)[0], Keys(q)[j]);
    } else {
      LeqTotal(q[0].key, p[0].key);
    }
  }

  /** There is only one such listing, so a full transfer is determined by the stored items. */
  lemma {:induction false} ListingUnique(items: map<Str, Item>, p: seq<Entry>, q: seq<Entry>)
    requires IsListing(items, p) && IsListing(items, q)
    ensures p == q
    decreases |p|
  {
    ListingEmpty(items, p);
    ListingEmpty(items, q);
    if p != [] {
      ListingHead(items, p, q);
      ListingHead(items, q, p);
      LeqAntisymmetric(p[0].key, q[0].key);
      ListingTail(items, p);
      ListingTail(items, q);
      ListingUnique(Delete(items, p[0].key), p[1..], q[1..]);
      assert p == [p[0]] + p[1..] && q == [q[0]] + q[1..];
    }
  }

  lemma ListingEmpty(items: map<Str, Item>, p: seq<Entry>)
    requires IsListing(items, p)
    ensures p == [] <==> items == map[]
  {
    if p != [] {
      assert p[0].key in items;
    }
  }

  lemma ListingTail(items: map<Str, Item>, p: seq<Entry>)
    requires IsListing(items, p) && p != []
    ensures IsListing(Delete(items, p[0].key), p[1..])
  {
    var rest := p[1..];
    assert Keys(rest) == Keys(p)[1..];
    assert Keys(p)[0] == p[0].key;
    forall i | 0 <= i < |rest|
      ensures rest[i].key != p[0].key
    {
      assert Before(Keys(p)[0], Keys(p)[i + 1]);
    }
  }

  /** sort.Strings on distinct keys. */
  method SortStrings(keys: seq<Str>) returns (sorted: seq<Str>)
    requires forall i, j :: 0 <= i < j < |keys| ==> keys[i] != keys[j]
    ensures Ascending(sorted)
    ensures forall k :: k in sorted <==> k in keys
  {
    sorted := [];
    for i := 0 to |keys|
      invariant Ascending(sorted)
      invariant forall k :: k in sorted <==> k in keys[..i]
    {
      var key := keys[i];
      assert key !in sorted;
      var p := |sorted|;
      while p > 0 && !Leq(sorted[p - 1], key)
        invariant 0 <= p <= |sorted|
        invariant forall j :: p <= j < |sorted| ==> Before(key, sorted[j])
      {
        LeqTotal(sorted[p - 1], key);
        p := p - 1;
      }
      InsertAscending(sorted, key, p);
      assert keys[..i + 1] == keys[..i] + [key];
      sorted := sorted[..p] + [key] + sorted[p..];
    }
    assert keys[..|keys|] == keys;
  }

  lemma InsertAscending(sorted: seq<Str>, key: Str, p: nat)
    requires Ascending(sorted) && p <= |sorted| && key !in sorted
    requires p > 0 ==> Leq(sorted[p - 1], key)
    requires forall j :: p <= j < |sorted| ==> Before(key, sorted[j])
    ensures Ascending(sorted[..p] + [key] + sorted[p..])
    ensures forall k :: k in sorted[..p] + [key] + sorted[p..] <==> k in sorted || k == key
  {
    forall i | 0 <= i < p
      ensures Before(sorted[i], key)
    {
      if i < p - 1 {
        assert Before(sorted[i], sorted[p - 1]);
        LeqTransitive(sorted[i], sorted[p - 1], key);
      }
    }
    InsertOrdered(sorted, key, p, Before);
    assert sorted == sorted[..p] + sorted[p..];
  }

  lemma InsertOrdered<T>(s: seq<T>, x: T, p: nat, lt: (T, T) -> bool)
    requires p <= |s|
    requires forall i, j :: 0 <= i < j < |s| ==> lt(s[i], s[j])
    requires forall i :: 0 <= i < p ==> lt(s[i], x)
    requires forall i :: p <= i < |s| ==> lt(x, s[i])
    ensures var r := s[..p] + [x] + s[p..]; forall i, j :: 0 <= i < j < |r| ==> lt(r[i], r[j])
  {
    var r := s[..p] + [x] + s[p..];
    forall i, j | 0 <= i < j < |r|
      ensures lt(r[i], r[j])
    {
      assert r[i] == (if i < p then s[i] else if i == p then x else s[i - 1]);
      assert r[j] == (if j < p then s[j] else if j == p then x else s[j - 1]);
    }
  }

  lemma {:induction false} ListingExists(items: map<Str, Item>)
    ensures exists page :: IsListing(items, page)
    decreases |items|
  {
    if items == map[] {
      assert IsListing(items, []);
    } else {
      var key :| key in items;
      var rest := Delete(items, key);
      assert rest.Keys == items.Keys - {key};
      assert |rest| == |rest.Keys| && |items| == |items.Keys|;
      ListingExists(rest);
      var page :| IsListing(rest, page);
      ListingWith(items, key, page);
    }
  }

  lemma ListingWith(items: map<Str, Item>, key: Str, page: seq<Entry>)
    requires key in items && IsListing(Delete(items, key), page)
    ensures exists page' :: IsListing(items, page')
  {
    var p := Position(Keys(page), key);
    InsertAscending(Keys(page), key, p);
    var page' := page[..p] + [Entry(key, items[key])] + page[p..];
    KeysWith(page, Entry(key, items[key]), p);
    forall i | 0 <= i < |page'|
      ensures page'[i].key in items && page'[i].item == items[page'[i].key]
    {
      assert page'[i] == (if i < p then page[i] else if i == p then Entry(key, items[key]) else page[i - 1]);
    }
    forall k | k in items
      ensures k in Keys(page')
    {
      assert k != key ==> k in Delete(items, key);
    }
    assert IsListing(items, page');
  }

  lemma KeysWith(page: seq<Entry>, e: Entry, p: nat)
    requires p <= |page|
    ensures Keys(page[..p] + [e] + page[p..]) == Keys(page)[..p] + [e.key] + Keys(page)[p..]
  {
  }

  /** Where a new key belongs among ascending ones. */
  lemma {:induction false} Position(keys: seq<Str>, key: Str) returns (p: nat)
    requires Ascending(keys) && key !in keys
    ensures p <= |keys| && (p > 0 ==> Leq(keys[p - 1], key)) && forall j :: p <= j < |keys| ==> Before(key, keys[j])
  {
    if keys == [] {
      p := 0;
    } else {
      var n := |keys| - 1;
      if Leq(keys[n], key) {
        p := n + 1;
      } else {
        LeqTotal(keys[n], key);
        p := Position(keys[..n], key);
      }
    }
  }

  /** The store's contents as every reader of the whole store sees them. */
  ghost function Listing(items: map<Str, Item>): (page: seq<Entry>)
    ensures IsListing(items, page)
  {
    ListingExists(items);
    var page :| IsListing(items, page);
    page
  }

  /** The attribute a secondary index extracts; a missing or non-string attribute reads as "". */
  function Extract(item: Item, attr: Str): Str {
    if item.Fields? && attr in item.attrs && item.attrs[attr].Text? then item.attrs[attr].text else []
  }

  function Matching(page: seq<Entry>, attr: Str, value: Str): seq<Entry> {
    if page == [] then []
    else
      var init, last := Matching(page[..|page| - 1], attr, value), page[|page| - 1];
      if Extract(last.item, attr) == value then init + [last] else init
  }

  /** An item is indexed under its attribute's text; without one, under the empty value. */
  lemma ExtractExactly(item: Item, attr: Str, value: Str)
    ensures value != [] ==>
              (Extract(item, attr) == value <==>
               item.Fields? && attr in item.attrs && item.attrs[attr] == Text(value))
    ensures Extract(item, attr) == [] <==>
              item == NilItem || attr !in item.attrs || !item.attrs[attr].Text? || item.attrs[attr] == Text([])
  {
  }

  /** The stored items an index query is about. */
  function Where(items: map<Str, Item>, attr: Str, value: Str): map<Str, Item> {
    map k | k in items && Extract(items[k], attr) == value :: items[k]
  }

  lemma {:induction false} MatchingAre(page: seq<Entry>, attr: Str, value: Str)
    ensures forall e :: e in Matching(page, attr, value) <==> e in page && Extract(e.item, attr) == value
  {
    if page != [] {
      var init, last := page[..|page| - 1], page[|page| - 1];
      assert page == init + [last];
      MatchingAre(init, attr, value);
    }
  }

  lemma AscendingSnoc(page: seq<Entry>, last: Entry)
    requires Ascending(Keys(page)) && forall e :: e in page ==> Before(e.key, last.key)
    ensures Ascending(Keys(page + [last]))
  {
    assert Keys(page + [last]) == Keys(page) + [last.key];
    assert forall i :: 0 <= i < |page| ==> page[i] in page;
  }

  lemma LastIsGreatest(page: seq<Entry>)
    requires page != [] && Ascending(Keys(page))
    ensures var init := page[..|page| - 1];
            Ascending(Keys(init)) && forall e :: e in init ==> Before(e.key, page[|page| - 1].key)
  {
    var init := page[..|page| - 1];
    assert Keys(init) == Keys(page)[..|init|];
    forall e | e in init
      ensures Before(e.key, page[|page| - 1].key)
    {
      var j :| 0 <= j < |init| && init[j] == e;
      assert Before(Keys(page)[j], Keys(page)[|init|]);
    }
  }

  lemma {:induction false} MatchingAscends(page: seq<Entry>, attr: Str, value: Str)
    requires Ascending(Keys(page))
    ensures Ascending(Keys(Matching(page, attr, value)))
  {
    if page != [] {
      var init, last := page[..|page| - 1], page[|page| - 1];
      LastIsGreatest(page);
      MatchingAscends(init, attr, value);
      MatchingAre(init, attr, value);
      if Extract(last.item, attr) == value {
        AscendingSnoc(Matching(init, attr, value), last);
      }
    }
  }

  /** An index query finds exactly the items with that attribute value, in ascending key order. */
  lemma MatchingLists(items: map<Str, Item>, page: seq<Entry>, attr: Str, value: Str)
    requires IsListing(items, page)
    ensures IsListing(Where(items, attr, value), Matching(page, attr, value))
  {
    MatchingAscends(page, attr, value);
    MatchingAre(page, attr, value);
    var m := Matching(page, attr, value);
    forall i | 0 <= i < |m|
      ensures m[i].key in items && m[i].item == items[m[i].key] && Extract(m[i].item, attr) == value
    {
      assert m[i] in m;
      var j :| 0 <= j < |page| && page[j] == m[i];
    }
    forall k | k in Where(items, attr, value)
      ensures k in Keys(m)
    {
      ListedAt(items, page, k);
      KeyListed(m, Entry(k, items[k]));
    }
  }

  lemma ListedAt(items: map<Str, Item>, page: seq<Entry>, k: Str)
    requires IsListing(items, page) && k in items
    ensures Entry(k, items[k]) in page
  {
    assert k in Keys(page);
    var j :| 0 <= j < |page| && Keys(page)[j] == k;
    assert page[j] == Entry(k, items[k]);
  }

  lemma KeyListed(page: seq<Entry>, e: Entry)
    requires e in page
    ensures e.key in Keys(page)
  {
    var i :| 0 <= i < |page| && page[i] == e;
    assert Keys(page)[i] == e.key;
  }

  class SampleStore {
    var items: map<Str, Item>
    const gsIs: map<Str, Str>

    constructor (items: map<Str, Item>, gsIs: map<Str, Str>)
      ensures this.items == items && this.gsIs == gsIs
    {
      this.items := items;
      this.gsIs := gsIs;
    }

    method Get(pk: Str, fails: bool) returns (r: Result<Item, StoreError>)
      ensures r == if fails then Err(StoreError) else Ok(Lookup(items, pk))
    {
      if fails {
        return Err(StoreError);
      }
      if pk in items {
        return Ok(items[pk]);
      }
      r := Ok(NilItem);
    }

    method Put(pk: Str, item: Item, fails: bool) returns (r: Result<(), StoreError>)
      modifies this
      ensures r == if fails then Err(StoreError) else Ok(())
      ensures items == if fails then old(items) else old(items)[pk := item]
    {
      if fails {
        return Err(StoreError);
      }
      items := items[pk := item];
      r := Ok(());
    }

    method Remove(pk: Str, fails: bool) returns (r: Result<(), StoreError>)
      modifies this
      ensures r == if fails then Err(StoreError) else Ok(())
      ensures items == if fails then old(items) else Delete(old(items), pk)
    {
      if fails {
        return Err(StoreError);
      }
      items := Delete(items, pk);
      r := Ok(());
    }

    /** List hands its callback this single page. */
    method List() returns (page: seq<Entry>)
      ensures IsListing(items, page) && page == Listing(items)
    {
      var keys: seq<Str> := [];
      var todo := items.Keys;
      while todo != {}
        invariant todo <= items.Keys
        invariant forall k :: k in keys <==> k in items && k !in todo
        invariant forall i, j :: 0 <= i < j < |keys| ==> keys[i] != keys[j]
        decreases todo
      {
        var k :| k in todo;
        keys := keys + [k];
        todo := todo - {k};
      }
      keys := SortStrings(keys);
      page := [];
      for i := 0 to |keys|
        invariant Keys(page) == keys[..i]
        invariant forall j :: 0 <= j < i ==> page[j] == Entry(keys[j], items[keys[j]])
      {
        assert keys[i] in keys;
        page := page + [Entry(keys[i], items[keys[i]])];
      }
      assert keys[..|keys|] == keys;
      forall i | 0 <= i < |page|
        ensures page[i].key in items
      {
        assert keys[i] in keys;
      }
      ListingUnique(items, page, Listing(items));
    }

    method QueryIndex(index: Str, value: Str) returns (r: Result<seq<Entry>, StoreError>)
      ensures r == if index in gsIs then Ok(Matching(Listing(items), gsIs[index], value)) else Err(StoreError)
    {
      var all := List();
      if index !in gsIs {
        return Err(StoreError);
      }
      var out: seq<Entry> := [];
      for i := 0 to |all|
        invariant out == Matching(all[..i], gsIs[index], value)
      {
        assert all[..i + 1][..i] == all[..i] && all[..i + 1][i] == all[i];
        if Extract(all[i].item, gsIs[index]) == value {
          out := out + [all[i]];
        }
      }
      assert all[..|all|] == all;
      r := Ok(out);
    }
  }
}
