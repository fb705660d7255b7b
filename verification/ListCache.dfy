/** The list cache as the code keeps it (map, LRU list, timestamps), refining the pages of PageCache. */
module ListCaching {
  import opened Base
  import opened Order
  import opened Storage
  import PC = PageCache

  datatype PageEntry =
    PageEntry(key: PC.ListKey, items: seq<KeyMeta>, nextCursor: Str, lastAccessed: int)

  function Without(s: seq<Str>, x: Str): (r: seq<Str>)
    ensures Elems(r) == Elems(s) - {x}
    ensures NoDup(s) ==> NoDup(r)
    ensures |r| <= |s|
  {
    if s == [] then []
    else
      var rest := Without(s[1..], x);
      assert s == [s[0]] + s[1..];
      ElemsCons(s[0], s[1..]);
      ElemsCons(s[0], rest);
      assert s[0] in rest <==> s[0] in Elems(rest);
      if s[0] == x then rest else [s[0]] + rest
  }

  lemma {:induction false} WithoutAbsent(s: seq<Str>, x: Str)
    requires x !in s
    ensures Without(s, x) == s
  {
    if s != [] {
      WithoutAbsent(s[1..], x);
    }
  }

  lemma {:induction false} WithoutAt(s: seq<Str>, x: Str, i: nat)
    requires i < |s| && s[i] == x && x !in s[..i] && x !in s[i + 1..]
    ensures Without(s, x) == s[..i] + s[i + 1..]
    decreases i
  {
    if i == 0 {
      WithoutAbsent(s[1..], x);
      assert s[..0] + s[1..] == s[1..];
    } else {
      assert s[0] in s[..i];
      assert s[1..][..i - 1] == s[..i][1..] && s[1..][i..] == s[i + 1..];
      WithoutAt(s[1..], x, i - 1);
      assert s[..i] == [s[0]] + s[1..][..i - 1];
    }
  }

  /** `after` is `before` with `x`, wherever it stood, moved to the front. */
  ghost predicate ToFront(before: seq<Str>, x: Str, after: seq<Str>) {
    exists i :: 0 <= i < |before| && before[i] == x && after == [x] + before[..i] + before[i + 1..]
  }

  lemma FrontByCut(s: seq<Str>, x: Str)
    requires NoDup(s) && x in s
    ensures ToFront(s, x, [x] + Without(s, x))
  {
    var i :| 0 <= i < |s| && s[i] == x;
    WithoutAt(s, x, i);
    assert [x] + (s[..i] + s[i + 1..]) == [x] + s[..i] + s[i + 1..];
  }

  lemma MovedToFront(s: seq<Str>, x: Str)
    requires NoDup(s) && x in s
    ensures NoDup([x] + Without(s, x)) && Elems([x] + Without(s, x)) == Elems(s)
    ensures |[x] + Without(s, x)| == |s|
    ensures ToFront(s, x, [x] + Without(s, x))
  {
    FrontByCut(s, x);
    var rest := Without(s, x);
    assert x in rest <==> x in Elems(rest);
    ElemsCons(x, rest);
    NoDupCard(s);
    NoDupCard([x] + rest);
  }

  lemma LastGone(s: seq<Str>)
    requires NoDup(s) && s != []
    ensures NoDup(s[..|s| - 1]) && Elems(s[..|s| - 1]) == Elems(s) - {s[|s| - 1]}
  {
  }

  /** The pages behind the entries, without their timestamps. */
  ghost function PagesOf(items: map<Str, PageEntry>): map<Str, PC.Cached> {
    map s | s in items :: PC.Cached(items[s].key, Page(items[s].items, items[s].nextCursor))
  }

  lemma PagesTouched(items: map<Str, PageEntry>, s: Str, now: int)
    requires s in items
    ensures PagesOf(items[s := items[s].(lastAccessed := now)]) == PagesOf(items)
  {
  }

  lemma PagesMinus(items: map<Str, PageEntry>, gone: set<Str>)
    ensures PagesOf(items - gone) == PagesOf(items) - gone
  {
  }

  lemma PagesAdmitted(items: map<Str, PageEntry>, gone: set<Str>, s: Str, e: PageEntry)
    ensures PagesOf((items - gone)[s := e]) == (PagesOf(items) - gone)[s := PC.Cached(e.key, Page(e.items, e.nextCursor))]
  {
  }

  class ListCache {
    const driver: Driver
    const ttl: int
    const max: nat
    var items: map<Str, PageEntry>
    var lru: seq<Str>   // map keys, most recently used first

    constructor (driver: Driver, ttl: int, max: nat)
      requires max > 0
      ensures Valid() && Pages() == map[]
      ensures this.driver == driver
    {
      this.driver, this.ttl, this.max := driver, ttl, max;
      items, lru := map[], [];
    }

    /** The list and the map hold the same keys, within capacity. */
    ghost predicate Listed()
      reads this
    {
      NoDup(lru) && Elems(lru) == items.Keys && 0 < max && |lru| <= max
    }

    ghost predicate Valid()
      reads this
    {
      Listed() && forall s :: s in items ==> s == PC.KeyString(items[s].key)
    }

    ghost function Pages(): map<Str, PC.Cached>
      reads this
    {
      PagesOf(items)
    }

    /** The database this cache and its driver amount to. */
    ghost function Db(): PC.Db
      reads this, driver
    {
      PC.Db(driver.data, Pages())
    }

    method Remove(s: Str)
      requires Listed()
      modifies this
      ensures Listed() && items == old(items) - {s}
    {
      lru := Without(lru, s);
      items := items - {s};
    }

    /** Capacity eviction: drop from the old end until there is room for one more page. */
    method MakeRoom() returns (ghost gone: set<Str>)
      requires Listed()
      modifies this
      ensures Listed() && |lru| == Min(|old(lru)|, max - 1) && lru == old(lru)[..|lru|]
      ensures gone == Elems(old(lru)[|lru|..]) && items == old(items) - gone
    {
      gone := {};
      while |lru| >= max
        invariant Listed() && Min(|old(lru)|, max - 1) <= |lru| <= |old(lru)| && lru == old(lru)[..|lru|]
        invariant gone == Elems(old(lru)[|lru|..]) && items == old(items) - gone
        decreases |lru|
      {
        var oldest := lru[|lru| - 1];
        LastGone(lru);
        assert old(lru)[|lru| - 1..] == [oldest] + old(lru)[|lru|..];
        ElemsCons(oldest, old(lru)[|lru|..]);
        items := items - {oldest};
        lru := lru[..|lru| - 1];
        gone := gone + {oldest};
      }
    }

    method Touch(mapKey: Str, now: int)
      requires Listed() && mapKey in items
      modifies this
      ensures Listed() && items == old(items)[mapKey := old(items)[mapKey].(lastAccessed := now)]
      ensures ToFront(old(lru), mapKey, lru)
    {
      assert mapKey in Elems(lru);
      MovedToFront(lru, mapKey);
      items := items[mapKey := items[mapKey].(lastAccessed := now)];
      lru := [mapKey] + Without(lru, mapKey);
    }

    method Admit(mapKey: Str, entry: PageEntry)
      requires Listed() && |lru| < max && mapKey !in items
      modifies this
      ensures Listed() && items == old(items)[mapKey := entry] && lru == [mapKey] + old(lru)
    {
      assert mapKey in lru <==> mapKey in Elems(lru);
      ElemsCons(mapKey, lru);
      items := items[mapKey := entry];
      lru := [mapKey] + lru;
    }

    /** The fast path: a fresh page is touched and served, an expired one removed. */
    method Lookup(mapKey: Str, now: int) returns (hit: Option<PageEntry>)
      requires Listed()
      modifies this
      ensures Listed()
      ensures hit.Some? ==> mapKey in old(items) && hit.value == old(items)[mapKey] && Pages() == old(Pages())
      ensures hit.None? ==> mapKey !in items && Pages() == old(Pages()) - {mapKey}
      ensures hit.Some? <==> mapKey in old(items) && (ttl <= 0 || now - old(items)[mapKey].lastAccessed < ttl)
      ensures hit.Some? ==>
        items == old(items)[mapKey := old(items)[mapKey].(lastAccessed := now)] && ToFront(old(lru), mapKey, lru)
      ensures hit.None? ==> items == old(items) - {mapKey} && lru == Without(old(lru), mapKey)
    {
      if mapKey in items {
        var entry := items[mapKey];
        if ttl <= 0 || now - entry.lastAccessed < ttl {
          PagesTouched(items, mapKey, now);
          Touch(mapKey, now);
          return Some(entry);
        }
      }
      PagesMinus(items, {mapKey});
      Expire(mapKey);
      return None;
    }

    /** The page, if there still is one, goes. */
    method Expire(mapKey: Str)
      requires Listed()
      modifies this
      ensures Listed() && items == old(items) - {mapKey} && lru == Without(old(lru), mapKey)
    {
      if mapKey in items {
        lru := Without(lru, mapKey);
        items := items - {mapKey};
      } else {
        assert mapKey !in Elems(lru);
        WithoutAbsent(lru, mapKey);
      }
    }

    /** One page, from the cache while it is fresh and from the driver otherwise. */
    method ListPage(query: PC.ListKey, now: int) returns (metas: seq<KeyMeta>, next: Str)
      requires Valid()
      modifies this
      ensures Valid()
      ensures || Page(metas, next) == PC.PageFor(driver.data, query)
              || (PC.KeyString(query) in old(Pages()) && Page(metas, next) == old(Pages())[PC.KeyString(query)].page)
      ensures old(PC.Coherent(Db())) && PC.BAR !in query.prefix ==>
        PC.Coherent(Db()) && Page(metas, next) == PC.PageFor(driver.data, query)
      // served from the cache exactly while the page is fresh, which it then is for another ttl
      ensures
        var s := PC.KeyString(query);
        if s in old(items) && (ttl <= 0 || now - old(items)[s].lastAccessed < ttl)
        then
          && metas == old(items)[s].items && next == old(items)[s].nextCursor
          && items == old(items)[s := old(items)[s].(lastAccessed := now)] && ToFront(old(lru), s, lru)
        else
          && Page(metas, next) == PC.PageFor(driver.data, query)
          && s in items && items[s] == PageEntry(query, metas, next, now)
          && (forall x :: x in items && x != s ==> x in old(items) && items[x] == old(items)[x])
          && lru != [] && lru[0] == s && lru[1..] <= Without(old(lru), s)
          && |lru| == 1 + Min(|Without(old(lru), s)|, max - 1)
    {
      var mapKey := PC.KeyString(query);
      assert forall s :: s in items ==> Pages()[s].key == items[s].key;
      assert Filed(Pages());
      if PC.Coherent(Db()) && PC.BAR !in query.prefix {
        PC.CoherentAnswer(Db(), query);
      }
      var hit := Lookup(mapKey, now);
      if hit.Some? {
        Unmoved(old(Db()));
        return hit.value.items, hit.value.nextCursor;
      }
      ghost var gone;
      metas, next, gone := Fetch(query, mapKey, now);
      Admitted(old(Db()), gone, query, Page(metas, next));
    }

    /** The miss path: ask the driver, make room, admit the page at the front. */
    method Fetch(query: PC.ListKey, mapKey: Str, now: int)
      returns (metas: seq<KeyMeta>, next: Str, ghost gone: set<Str>)
      requires Listed() && mapKey !in items
      modifies this
      ensures Listed() && Page(metas, next) == PageOf(driver.data, query.prefix, query.cursor, query.limit)
      ensures Pages() == (old(Pages()) - gone)[mapKey := PC.Cached(query, Page(metas, next))]
      ensures items == (old(items) - gone)[mapKey := PageEntry(query, metas, next, now)]
      ensures lru != [] && lru[0] == mapKey && lru[1..] <= old(lru) && |lru| == 1 + Min(|old(lru)|, max - 1)
    {
      metas, next := driver.List(query.prefix, query.limit, query.cursor);
      gone := MakeRoom();
      PagesAdmitted(old(items), gone, mapKey, PageEntry(query, metas, next, now));
      Admit(mapKey, PageEntry(query, metas, next, now));
    }

    /** Every page is filed under the string of its query. */
    ghost predicate Filed(pages: map<Str, PC.Cached>) {
      forall s :: s in pages ==> s == PC.KeyString(pages[s].key)
    }

    lemma Unmoved(was: PC.Db)
      requires Filed(was.pages) && Db() == was && Listed()
      ensures Valid()
    {
      assert forall s :: s in items ==> Pages()[s].key == items[s].key;
    }

    lemma Admitted(was: PC.Db, gone: set<Str>, query: PC.ListKey, page: Page)
      requires Filed(was.pages) && page == PC.PageFor(was.store, query)
      requires driver.data == was.store && Listed()
      requires Pages() == (was.pages - {PC.KeyString(query)} - gone)[PC.KeyString(query) := PC.Cached(query, page)]
      ensures Valid() && (PC.Coherent(was) && PC.BAR !in query.prefix ==> PC.Coherent(Db()))
    {
      var mapKey := PC.KeyString(query);
      assert was.pages - {mapKey} - gone == was.pages - ({mapKey} + gone);
      if PC.Coherent(was) && PC.BAR !in query.prefix {
        PC.DropAndAdmitKeepCoherent(was, {mapKey} + gone, query);
      }
      assert forall s :: s in items ==> Pages()[s].key == items[s].key;
    }

    /** The scan: the map keys of the pages a write to `key` touches. */
    method Touched(key: Str) returns (toRemove: seq<Str>)
      ensures Elems(toRemove) == set s | s in items && PC.Touches(key, items[s].key.prefix)
    {
      toRemove := [];
      var todo := items.Keys;
      while todo != {}
        invariant todo <= items.Keys
        invariant Elems(toRemove) == set s | s in items && s !in todo && PC.Touches(key, items[s].key.prefix)
      {
        var s :| s in todo;
        todo := todo - {s};
        if items[s].key.prefix == [] || items[s].key.prefix <= key {
          ElemsSnoc(toRemove, s);
          toRemove := toRemove + [s];
        }
      }
    }

    method InvalidateKey(key: Str)
      requires Valid()
      modifies this
      ensures Valid() && Pages() == PC.Invalidated(old(Pages()), key)
      ensures forall s :: s in items <==>
        s in old(items) && old(items)[s].key.prefix != [] && !(old(items)[s].key.prefix <= key)
      ensures forall s :: s in items ==> items[s] == old(items)[s]
    {
      var toRemove := Touched(key);
      RemoveAll(toRemove);
      assert items == map s | s in old(items) && !PC.Touches(key, old(items)[s].key.prefix) :: old(items)[s];
    }

    method RemoveAll(toRemove: seq<Str>)
      requires Listed()
      modifies this
      ensures Listed() && items == old(items) - Elems(toRemove)
    {
      for i := 0 to |toRemove|
        invariant Listed()
        invariant items == old(items) - Elems(toRemove[..i])
      {
        assert toRemove[..i + 1] == toRemove[..i] + [toRemove[i]];
        ElemsSnoc(toRemove[..i], toRemove[i]);
        Remove(toRemove[i]);
      }
      assert toRemove[..|toRemove|] == toRemove;
    }

    method Purge()
      requires Valid()
      modifies this
      ensures Valid() && Pages() == map[]
    {
      items, lru := map[], [];
    }
  }

  /** The write paths of an embedded database, as far as listings are concerned. */
  class Embedded {
    const driver: Driver
    const listCache: ListCache

    constructor (driver: Driver, listCache: ListCache)
      requires listCache.driver == driver
      ensures this.driver == driver && this.listCache == listCache
    {
      this.driver, this.listCache := driver, listCache;
    }

    ghost predicate Valid()
      reads this, listCache, driver
    {
      listCache.driver == driver && listCache.Valid() && PC.Coherent(listCache.Db())
    }

    method Put(key: Str, value: seq<byte>, expected: Str, stamp: Stamp) returns (r: Result<Object>)
      requires Valid()
      modifies driver, listCache
      ensures Valid()
      ensures listCache.Db() == PC.Next(old(listCache.Db()), PC.Put(key, value, expected, stamp))
      ensures r.Ok? <==> PutRefusal(old(driver.data), key, expected) == None
    {
      ghost var before := listCache.Db();
      r := driver.Put(key, value, expected, stamp);
      if r.Ok? {
        listCache.InvalidateKey(key);
        assert before.store - {key} == driver.data - {key};
        PC.WriteKeepsCoherent(before, driver.data, key);
      }
    }

    method Delete(key: Str, expected: Str) returns (r: Result<()>)
      requires Valid()
      modifies driver, listCache
      ensures Valid()
      ensures listCache.Db() == PC.Next(old(listCache.Db()), PC.Delete(key, expected))
      ensures r.Ok? <==> DeleteRefusal(old(driver.data), key, expected) == None
    {
      ghost var before := listCache.Db();
      r := driver.Delete(key, expected);
      if r.Ok? {
        listCache.InvalidateKey(key);
        PC.WriteKeepsCoherent(before, driver.data, key);
      }
    }
  }
}
