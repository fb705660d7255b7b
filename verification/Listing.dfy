/** `DB.List`: a limit honoured across however many pages the driver needs. */
module Listing {
  import opened Base
  import opened Order
  import opened Storage

  const LIST_PAGE_SIZE := 1000

  /** A driver's List over a store that does not change: prefix, limit, cursor to page. */
  type Pager = (Str, int, Str) -> Page

  ghost function Listed(store: Store, prefix: Str, cursor: Str): seq<Str> {
    SortedKeys(Matching(store, prefix, cursor))
  }

  lemma ListedInStore(store: Store, prefix: Str, cursor: Str)
    ensures forall k :: k in Listed(store, prefix, cursor) ==> k in store
  {
    ElemsAre(Listed(store, prefix, cursor), Matching(store, prefix, cursor));
  }

  ghost predicate AllIn(keys: seq<Str>, store: Store) {
    forall k :: k in keys ==> k in store
  }

  /** The first `n` of some keys, as listing reports them. */
  ghost function First(store: Store, keys: seq<Str>, n: nat): (r: seq<KeyMeta>)
    requires AllIn(keys, store) && n <= |keys|
    ensures |r| == n
  {
    Metas(store, keys[..n])
  }

  /** The same of the keys a query lists. */
  ghost function FirstListed(store: Store, prefix: Str, cursor: Str, n: nat): seq<KeyMeta>
    requires n <= |Listed(store, prefix, cursor)|
  {
    ListedInStore(store, prefix, cursor);
    First(store, Listed(store, prefix, cursor), n)
  }

  // ---------------------------------------------------------------- what a driver owes

  /** One page of a positive limit when the keys `m` are left to list. It may be shorter than asked
      for. No cursor means nothing is left; the one exception, a full page of one key, is harmless to
      List because it only asks for one key when one is all it needs. */
  ghost predicate PageContinues(store: Store, m: seq<Str>, limit: int, p: Page) {
    var n := |p.items|;
    && AllIn(m, store) && n <= |m| && n <= limit
    && p.items == First(store, m, n)
    && (p.next == [] ==> n == |m| || (limit == 1 && n == 1))
    && (p.next != [] && n == 0 ==> m == [])
  }

  /** How far into a listing a cursor resumes. What a cursor looks like is the driver's business. */
  type Standing = (Str, nat) -> bool

  ghost predicate PageStands(store: Store, all: seq<Str>, n: nat, limit: int, at: Standing, p: Page) {
    && n <= |all| && PageContinues(store, all[n..], limit, p)
    && (p.next != [] && p.items != [] ==> at(p.next, n + |p.items|))
  }

  /** Starting without a cursor and following the cursors handed out lists `all`. */
  ghost predicate Follows(pager: Pager, store: Store, prefix: Str, all: seq<Str>, at: Standing) {
    && at([], 0)
    && forall cursor, n: nat, limit :: at(cursor, n) && limit > 0 ==>
         PageStands(store, all, n, limit, at, pager(prefix, limit, cursor))
  }

  ghost predicate ListsAll(pager: Pager, store: Store, prefix: Str) {
    exists at: Standing :: Follows(pager, store, prefix, Listed(store, prefix, []), at)
  }

  ghost predicate MeetsContract(pager: Pager, store: Store) {
    forall prefix :: ListsAll(pager, store, prefix)
  }

  /** Resuming after the i-th key lists exactly the keys from the i-th on. */
  lemma ResumeAfter(store: Store, prefix: Str, i: nat)
    requires 0 < i <= |Listed(store, prefix, [])|
    requires Listed(store, prefix, [])[i - 1] != []
    ensures Listed(store, prefix, Listed(store, prefix, [])[i - 1]) == Listed(store, prefix, [])[i..]
  {
    var m := Listed(store, prefix, []);
    var cursor := m[i - 1];
    var rest := Matching(store, prefix, cursor);
    assert Ascending(m[i..]);
    forall k | k in m[i..] ensures k in rest {
      var j :| i <= j < |m| && m[j] == k;
      assert k in Elems(m);
      assert Less(m[i - 1], m[j]);
      Trichotomy(k, cursor);
    }
    assert forall j :: 0 <= j < i - 1 ==> Less(m[j], cursor);
    forall k | k in rest ensures k in m[i..] {
      assert k in Matching(store, prefix, []);
      assert k in Elems(m);
      var j :| 0 <= j < |m| && m[j] == k;
      assert j >= i;
      assert m[i..][j - i] == k;
    }
    assert Elems(m[i..]) == rest;
    AscendingUnique(m[i..], SortedKeys(rest));
  }

  // ---------------------------------------------------------------- the loop

  /** Terminates and returns the sorted matching keys: all of them, or the first `limit`. */
  method List(pager: Pager, ghost store: Store, prefix: Str, limit: int) returns (items: seq<KeyMeta>)
    requires MeetsContract(pager, store)
    ensures |items| == PageLength(|Listed(store, prefix, [])|, limit)
    ensures items == FirstListed(store, prefix, [], |items|)
    ensures ListingOf(store, prefix, [], limit, items)
  {
    ghost var all := Listed(store, prefix, []);
    ListedInStore(store, prefix, []);
    assert ListsAll(pager, store, prefix);
    ghost var at: Standing :| Follows(pager, store, prefix, all, at);
    items := ListPages(pager, store, prefix, limit, all, at);
    assert forall i :: 0 <= i < |items| ==> all[..|items|][i] == all[i] && all[i] in all;
    FirstAreListing(store, prefix, [], limit, all, items);
  }

  /** What one page adds to a listing that has got as far as `done` keys. */
  lemma PageAdds(store: Store, all: seq<Str>, done: nat, limit: int, at: Standing, page: Page)
    requires AllIn(all, store) && PageStands(store, all, done, limit, at, page)
    ensures
      var got := done + |page.items|;
      && got <= |all| && First(store, all, done) + page.items == First(store, all, got)
      && (page.next == [] ==> got == |all| || (limit == 1 && |page.items| == 1))
      && (page.next != [] && |page.items| == 0 ==> got == |all|)
      && (page.next != [] && |page.items| != 0 ==> at(page.next, got))
  {
  }

  /** The paging loop. */
  method ListPages(pager: Pager, ghost store: Store, prefix: Str, limit: int, ghost all: seq<Str>, ghost at: Standing)
    returns (items: seq<KeyMeta>)
    requires AllIn(all, store) && Follows(pager, store, prefix, all, at)
    ensures |items| == PageLength(|all|, limit) && items == First(store, all, |items|)
  {
    items := [];
    var cursor: Str := [];
    while true
      invariant |items| <= |all| && (limit > 0 ==> |items| < limit)
      invariant items == First(store, all, |items|)
      invariant at(cursor, |items|)
      decreases |all| - |items|
    {
      var pageLimit := LIST_PAGE_SIZE;
      if limit > 0 {
        var remaining := limit - |items|;
        if remaining < pageLimit {
          pageLimit := remaining;
        }
      }
      var page := pager(prefix, pageLimit, cursor);
      PageAdds(store, all, |items|, pageLimit, at, page);
      items := items + page.items;

      if limit > 0 && |items| >= limit {
        return items[..limit];
      }
      if page.next == [] || |page.items| == 0 {
        return;
      }
      cursor := page.next;
    }
  }

  // ---------------------------------------------------------------- cursors that are opaque tokens

  /** A driver that, like S3, returns at most `cap` keys a page and hands out a token of its own
      exactly while keys remain. An unknown token finds nothing. */
  ghost function Tokened(store: Store, cap: nat, token: (Str, nat) -> Str): Pager {
    (prefix: Str, limit: int, cursor: Str) =>
      TokenPage(store, prefix, Min(limit, cap), token, Position(store, prefix, token, cursor))
  }

  ghost function Position(store: Store, prefix: Str, token: (Str, nat) -> Str, cursor: Str): (n: nat)
    ensures n <= |Listed(store, prefix, [])|
  {
    var all := Listed(store, prefix, []);
    if cursor == [] then 0
    else if n: nat :| n <= |all| && token(prefix, n) == cursor then n
    else |all|
  }

  ghost function TokenPage(store: Store, prefix: Str, limit: int, token: (Str, nat) -> Str, n: nat): Page
    requires n <= |Listed(store, prefix, [])|
  {
    ListedInStore(store, prefix, []);
    var m := Listed(store, prefix, [])[n..];
    var k := PageLength(|m|, limit);
    Page(First(store, m, k), if k < |m| then token(prefix, n + k) else [])
  }

  ghost function TokenStanding(all: seq<Str>, prefix: Str, token: (Str, nat) -> Str): Standing {
    (cursor: Str, n: nat) => n <= |all| && cursor == if n == 0 then [] else token(prefix, n)
  }

  lemma TokenPageStands(store: Store, prefix: Str, limit: int, cap: nat, token: (Str, nat) -> Str, n: nat)
    requires 0 < limit && 0 < cap && n <= |Listed(store, prefix, [])|
    requires forall i :: token(prefix, i) != []
    ensures
      var all := Listed(store, prefix, []);
      PageStands(store, all, n, limit, TokenStanding(all, prefix, token), TokenPage(store, prefix, Min(limit, cap), token, n))
  {
    var all := Listed(store, prefix, []);
    ListedInStore(store, prefix, []);
    var p := TokenPage(store, prefix, Min(limit, cap), token, n);
    assert AllIn(all[n..], store);
    assert |p.items| == PageLength(|all[n..]|, Min(limit, cap));
    assert PageContinues(store, all[n..], limit, p);
  }

  /** Whatever its tokens are, as long as they are not empty and tell positions apart. */
  lemma TokenDriverMeetsContract(store: Store, cap: nat, token: (Str, nat) -> Str)
    requires cap > 0
    requires forall prefix, n :: token(prefix, n) != []
    requires forall prefix, m, n :: token(prefix, m) == token(prefix, n) ==> m == n
    ensures MeetsContract(Tokened(store, cap, token), store)
  {
    var pager := Tokened(store, cap, token);
    forall prefix ensures ListsAll(pager, store, prefix) {
      var all := Listed(store, prefix, []);
      var at := TokenStanding(all, prefix, token);
      forall cursor, n: nat, limit | at(cursor, n) && limit > 0
        ensures PageStands(store, all, n, limit, at, pager(prefix, limit, cursor))
      {
        assert Position(store, prefix, token, cursor) == n;
        TokenPageStands(store, prefix, limit, cap, token, n);
      }
      assert Follows(pager, store, prefix, all, at);
    }
  }

  // ---------------------------------------------------------------- cursors that are keys

  /** A page whose cursor is its last key. */
  ghost predicate KeyedPage(store: Store, prefix: Str, limit: int, cursor: Str, p: Page) {
    var m := Listed(store, prefix, cursor);
    && PageContinues(store, m, limit, p)
    && (p.next != [] && p.items != [] ==> p.next == m[|p.items| - 1])
  }

  lemma ListedFrom(store: Store, prefix: Str, all: seq<Str>)
    requires all == Listed(store, prefix, [])
    ensures AllIn(all, store) && Listed(store, prefix, []) == all[0..]
    ensures forall got :: 0 < got <= |all| && all[got - 1] != [] ==> Listed(store, prefix, all[got - 1]) == all[got..]
  {
    ListedInStore(store, prefix, []);
    forall got | 0 < got <= |all| && all[got - 1] != [] ensures Listed(store, prefix, all[got - 1]) == all[got..] {
      ResumeAfter(store, prefix, got);
    }
  }

  /** Listing the keys after the cursor, with the last key of the page as the next one, is a way to
      meet the contract. */
  lemma KeyedDriverMeetsContract(pager: Pager, store: Store)
    requires forall prefix, limit, cursor ::
      limit > 0 ==> KeyedPage(store, prefix, limit, cursor, pager(prefix, limit, cursor))
    ensures MeetsContract(pager, store)
  {
    forall prefix ensures ListsAll(pager, store, prefix) {
      var all := Listed(store, prefix, []);
      ListedFrom(store, prefix, all);
      var at: Standing := (cursor: Str, n: nat) =>
        n <= |all| && if n == 0 then cursor == [] else cursor != [] && cursor == all[n - 1];
      forall cursor, n: nat, limit | at(cursor, n) && limit > 0
        ensures PageStands(store, all, n, limit, at, pager(prefix, limit, cursor))
      {
        assert Listed(store, prefix, cursor) == all[n..];
        assert KeyedPage(store, prefix, limit, cursor, pager(prefix, limit, cursor));
      }
      assert Follows(pager, store, prefix, all, at);
    }
  }

  /** A driver that never returns more than `cap` keys, whatever it is asked for. */
  ghost function Capped(store: Store, cap: nat): Pager {
    (prefix: Str, limit: int, cursor: Str) => PageOf(store, prefix, cursor, Min(limit, cap))
  }

  ghost function Uncapped(store: Store): Pager {
    (prefix: Str, limit: int, cursor: Str) => PageOf(store, prefix, cursor, limit)
  }

  lemma LaterKeysNonEmpty(m: seq<Str>, i: nat)
    requires Ascending(m) && 0 < i < |m|
    ensures m[i] != []
  {
    assert Less(m[0], m[i]);
  }

  lemma FullPageOk(store: Store, prefix: Str, asked: int, cursor: Str, given: int)
    requires 0 < given <= asked
    requires given >= 2 || asked == 1 || Listed(store, prefix, cursor) == []
          || Listed(store, prefix, cursor)[0] != [] || |Listed(store, prefix, cursor)| == 1
    ensures KeyedPage(store, prefix, asked, cursor, PageOf(store, prefix, cursor, given))
  {
    var m := Listed(store, prefix, cursor);
    var n := PageLength(|m|, given);
    ListedInStore(store, prefix, cursor);
    var p := PageOf(store, prefix, cursor, given);
    assert p.items == First(store, m, n);
    if n >= 2 { LaterKeysNonEmpty(m, n - 1); }
  }

  /** The memory driver meets the contract on every store, even one holding the empty key. */
  lemma MemoryDriverMeetsContract(store: Store)
    ensures MeetsContract(Uncapped(store), store)
  {
    forall prefix, limit: int, cursor | limit > 0
      ensures KeyedPage(store, prefix, limit, cursor, Uncapped(store)(prefix, limit, cursor))
    {
      FullPageOk(store, prefix, limit, cursor, limit);
    }
    KeyedDriverMeetsContract(Uncapped(store), store);
  }

  /** A driver with such cursors that caps its pages meets it too, with one exception: pages of a
      single key over a store where the empty key is followed by others, because that page's cursor
      reads as "nothing left". */
  lemma CappedDriverMeetsContractIff(store: Store, cap: nat)
    requires cap > 0
    ensures MeetsContract(Capped(store, cap), store)
       <==> (cap >= 2 || [] !in store || |store| == 1)
  {
    if cap >= 2 || [] !in store || |store| == 1 {
      forall prefix, limit: int, cursor | limit > 0
        ensures KeyedPage(store, prefix, limit, cursor, Capped(store, cap)(prefix, limit, cursor))
      {
        ListedInStore(store, prefix, cursor);
        if |store| == 1 { ListedAtMostStore(store, prefix, cursor); }
        FullPageOk(store, prefix, limit, cursor, Min(limit, cap));
      }
      KeyedDriverMeetsContract(Capped(store, cap), store);
    } else {
      EmptyKeyIsFirst(store);
      var p := Capped(store, cap)([], 2, []);
      assert Min(2, cap) == 1 && p == PageOf(store, [], [], 1);
      assert !PageContinues(store, Listed(store, [], [])[0..], 2, p);
      assert !ListsAll(Capped(store, cap), store, []);
    }
  }

  /** What List returns in that exception: the empty key and nothing else, whatever the limit. */
  method ListStopsAtEmptyKey(pager: Pager, ghost store: Store, limit: int) returns (items: seq<KeyMeta>)
    requires [] in store
    requires forall prefix, l, cursor :: pager(prefix, l, cursor) == PageOf(store, prefix, cursor, Min(l, 1))
    ensures items == [MetaOf(store, [])]
  {
    ghost var all: seq<Str> := [[]];
    ghost var at: Standing := (cursor: Str, n: nat) => cursor == [] && n == 0;
    EmptyKeyIsFirst(store);
    ListedInStore(store, [], []);
    items := ListPages(pager, store, [], limit, all, at);
  }

  lemma ListedAtMostStore(store: Store, prefix: Str, cursor: Str)
    ensures |Listed(store, prefix, cursor)| <= |store|
  {
    SortedKeysLength(Matching(store, prefix, cursor));
    SubsetSize(Matching(store, prefix, cursor), store.Keys);
  }

  lemma EmptyKeyIsFirst(store: Store)
    requires [] in store
    ensures |Listed(store, [], [])| == |store| && Listed(store, [], [])[0] == []
  {
    var m := Listed(store, [], []);
    assert Matching(store, [], []) == store.Keys;
    SortedKeysLength(store.Keys);
    assert [] in Elems(m);
    HeadIsLeast(m, []);
  }
}
