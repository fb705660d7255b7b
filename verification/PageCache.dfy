/** The list-page cache of an embedded database, and when its pages agree with the store. */
module PageCache {
  import opened Base
  import opened Order
  import opened Storage

  // ---------------------------------------------------------------- map keys

  const BAR: byte := 0x7C

  datatype ListKey = ListKey(prefix: Str, cursor: Str, limit: int)

  function Digits(n: nat): Str {
    if n < 10 then [48 + n] else Digits(n / 10) + [48 + n % 10]
  }

  /** `%d`. */
  function Decimal(n: int): Str {
    if n < 0 then [45] + Digits(-n) else Digits(n)
  }

  /** `prefix|cursor|limit`, the key under which a page is cached. */
  function KeyString(k: ListKey): Str {
    k.prefix + [BAR] + k.cursor + [BAR] + Decimal(k.limit)
  }

  function Value(s: Str): int {
    if s == [] then 0 else 10 * Value(s[..|s| - 1]) + s[|s| - 1] - 48
  }

  lemma {:induction false} DigitsFacts(n: nat)
    ensures Value(Digits(n)) == n
    ensures Digits(n) != [] && forall c :: c in Digits(n) ==> 48 <= c < 58
  {
    if n >= 10 {
      DigitsFacts(n / 10);
      assert Digits(n)[..|Digits(n)| - 1] == Digits(n / 10);
    } else {
      assert Digits(n)[..0] == [];
    }
  }

  lemma DecimalInjective(a: int, b: int)
    ensures BAR !in Decimal(a)
    ensures Decimal(a) == Decimal(b) ==> a == b
  {
    DigitsFacts(if a < 0 then -a else a);
    DigitsFacts(if b < 0 then -b else b);
    if Decimal(a) == Decimal(b) {
      assert a >= 0 ==> Decimal(a)[0] in Digits(a);
      assert b >= 0 ==> Decimal(b)[0] in Digits(b);
      if a < 0 {
        assert Decimal(a)[1..] == Digits(-a) && Decimal(b)[1..] == Digits(-b);
      }
    }
  }

  lemma SplitLast(a: Str, x: Str, b: Str, y: Str)
    requires BAR !in x && BAR !in y
    requires a + [BAR] + x == b + [BAR] + y
    ensures a == b && x == y
  {
    var s := a + [BAR] + x;
    assert s[|a|] == BAR && s[|b|] == BAR;
    assert forall i :: |a| < i < |s| ==> s[i] == x[i - |a| - 1];
    assert forall i :: |b| < i < |s| ==> s[i] == y[i - |b| - 1];
    assert |a| == |b|;
    assert s[..|a|] == a && s[..|b|] == b && s[|a| + 1..] == x && s[|b| + 1..] == y;
  }

  lemma SplitFirst(a: Str, x: Str, b: Str, y: Str)
    requires BAR !in a && BAR !in b
    requires a + [BAR] + x == b + [BAR] + y
    ensures a == b && x == y
  {
    var s := a + [BAR] + x;
    assert s[|a|] == BAR && s[|b|] == BAR;
    assert forall i :: 0 <= i < |a| ==> s[i] == a[i];
    assert forall i :: 0 <= i < |b| ==> s[i] == b[i];
    assert |a| == |b|;
    assert s[..|a|] == a && s[..|b|] == b && s[|a| + 1..] == x && s[|b| + 1..] == y;
  }

  /** Equal strings always agree on the limit and on `prefix|cursor`. */
  lemma KeyStringSplit(k: ListKey, l: ListKey)
    requires KeyString(k) == KeyString(l)
    ensures k.limit == l.limit && k.prefix + [BAR] + k.cursor == l.prefix + [BAR] + l.cursor
  {
    DecimalInjective(k.limit, l.limit);
    DecimalInjective(l.limit, k.limit);
    SplitLast(k.prefix + [BAR] + k.cursor, Decimal(k.limit), l.prefix + [BAR] + l.cursor, Decimal(l.limit));
  }

  /** Among queries whose prefix has no bar, a map key stands for one query. */
  lemma KeyStringInjective(k: ListKey, l: ListKey)
    requires BAR !in k.prefix && BAR !in l.prefix
    requires KeyString(k) == KeyString(l)
    ensures k == l
  {
    KeyStringSplit(k, l);
    SplitFirst(k.prefix, k.cursor, l.prefix, l.cursor);
  }

  ghost predicate Unambiguous(k: ListKey) {
    forall l: ListKey :: KeyString(l) == KeyString(k) ==> l == k
  }

  lemma BarInPrefix(k: ListKey)
    requires BAR in k.prefix
    ensures !Unambiguous(k)
  {
    var i :| 0 <= i < |k.prefix| && k.prefix[i] == BAR;
    var l := ListKey(k.prefix[..i], k.prefix[i + 1..] + [BAR] + k.cursor, k.limit);
    assert k.prefix == k.prefix[..i] + [BAR] + k.prefix[i + 1..];
    assert KeyString(l) == KeyString(k) && l != k;
  }

  lemma BarInCursor(k: ListKey)
    requires BAR in k.cursor
    ensures !Unambiguous(k)
  {
    var i :| 0 <= i < |k.cursor| && k.cursor[i] == BAR;
    var l := ListKey(k.prefix + [BAR] + k.cursor[..i], k.cursor[i + 1..], k.limit);
    assert k.cursor == k.cursor[..i] + [BAR] + k.cursor[i + 1..];
    assert KeyString(l) == KeyString(k) && l != k;
  }

  lemma NoBar(k: ListKey, l: ListKey)
    requires BAR !in k.prefix && BAR !in k.cursor && KeyString(l) == KeyString(k)
    ensures l == k
  {
    KeyStringSplit(l, k);
    var s := k.prefix + [BAR] + k.cursor;
    assert s[|l.prefix|] == BAR;
    assert |l.prefix| == |k.prefix|;
    assert s[..|k.prefix|] == k.prefix && s[..|l.prefix|] == l.prefix;
    assert s[|k.prefix| + 1..] == k.cursor && s[|l.prefix| + 1..] == l.cursor;
  }

  /** Among all queries, exactly those without a bar in prefix or cursor own their map key. */
  lemma UnambiguousIff(k: ListKey)
    ensures Unambiguous(k) <==> BAR !in k.prefix && BAR !in k.cursor
  {
    if BAR in k.prefix {
      BarInPrefix(k);
    } else if BAR in k.cursor {
      BarInCursor(k);
    } else {
      forall l: ListKey | KeyString(l) == KeyString(k) ensures l == k {
        NoBar(k, l);
      }
    }
  }

  ghost function PageFor(store: Store, k: ListKey): Page {
    PageOf(store, k.prefix, k.cursor, k.limit)
  }

  /** Two queries that share a map key and have different answers: with a bar in the prefix the
      cache can serve one query the other's page. */
  lemma BarCollision(v: seq<byte>, t: Stamp)
    ensures
      var k, l := ListKey([97, BAR, 98], [], 5), ListKey([97], [98, BAR], 5);
      var store := map[[97, BAR, 98] := Entry(v, t.etag, t.modTime)];
      KeyString(k) == KeyString(l) && PageFor(store, k) != PageFor(store, l)
  {
    var k, l := ListKey([97, BAR, 98], [], 5), ListKey([97], [98, BAR], 5);
    var key: Str := [97, BAR, 98];
    var store := map[key := Entry(v, t.etag, t.modTime)];
    assert KeyString(k) == [97, BAR, 98, BAR, BAR] + Decimal(5) == KeyString(l);
    assert Matching(store, k.prefix, k.cursor) == {key};
    assert Less(key, l.cursor);
    assert Matching(store, l.prefix, l.cursor) == {};
    SortedKeysLength({key});
    SortedKeysLength({});
    assert |{key}| == 1;
    assert |PageFor(store, k).items| == 1 && |PageFor(store, l).items| == 0;
  }

  // ---------------------------------------------------------------- what a write can touch

  /** The test `InvalidateKey` applies to a cached page. */
  predicate Touches(key: Str, prefix: Str) {
    prefix == [] || prefix <= key
  }

  /** What a listing reports of a key. */
  function MetaAt(store: Store, key: Str): Option<KeyMeta> {
    if key in store then Some(MetaOf(store, key)) else None
  }

  /** The key falls in the stretch a page covers: below the prefix, past the cursor and, if the page
      is full, not past its last key. */
  predicate Within(p: Page, k: ListKey, key: Str) {
    && k.prefix <= key && (k.cursor == [] || !AtMost(key, k.cursor))
    && (k.limit <= 0 || |p.items| < k.limit || AtMost(key, p.items[|p.items| - 1].key))
  }

  lemma SameMetas(store: Store, store': Store, keys: seq<Str>)
    requires forall x :: x in keys ==> x in store && MetaAt(store, x) == MetaAt(store', x)
    ensures forall x :: x in keys ==> x in store'
    ensures Metas(store, keys) == Metas(store', keys)
  {
    forall x | x in keys ensures x in store' {
      assert MetaAt(store, x).Some?;
    }
    forall i | 0 <= i < |keys| ensures Metas(store, keys)[i] == Metas(store', keys)[i] {
      assert keys[i] in keys;
    }
  }

  lemma SameEntriesSamePage(store: Store, store': Store, k: ListKey)
    requires Matching(store, k.prefix, k.cursor) == Matching(store', k.prefix, k.cursor)
    requires forall x :: x in Matching(store, k.prefix, k.cursor) ==> MetaAt(store, x) == MetaAt(store', x)
    ensures PageFor(store, k) == PageFor(store', k)
  {
    var m := Matching(store, k.prefix, k.cursor);
    ElemsAre(SortedKeys(m), m);
    var keys := SortedKeys(m)[..PageLength(|SortedKeys(m)|, k.limit)];
    forall x | x in keys ensures x in m && x in store {
      assert x in SortedKeys(m);
    }
    SameMetas(store, store', keys);
  }

  lemma SameElsewhere(store: Store, store': Store, key: Str)
    requires store - {key} == store' - {key}
    ensures forall x :: x != key ==> MetaAt(store, x) == MetaAt(store', x)
  {
    forall x | x != key ensures MetaAt(store, x) == MetaAt(store', x) {
      assert x in store <==> x in store - {key};
      assert x in store' <==> x in store' - {key};
      assert x in store ==> (store - {key})[x] == (store' - {key})[x];
    }
  }

  ghost predicate Lists(p: Page, key: Str) {
    exists i :: 0 <= i < |p.items| && p.items[i].key == key
  }

  /** A page lists exactly the stored keys of the stretch it covers. */
  lemma ListsIff(store: Store, k: ListKey, key: Str)
    ensures Lists(PageFor(store, k), key) <==> key in store && Within(PageFor(store, k), k, key)
  {
    if Lists(PageFor(store, k), key) {
      ListedIsWithin(store, k, key);
    }
    if key in store && Within(PageFor(store, k), k, key) {
      WithinIsListed(store, k, key);
    }
  }

  lemma ListedIsWithin(store: Store, k: ListKey, key: Str)
    requires Lists(PageFor(store, k), key)
    ensures key in store && Within(PageFor(store, k), k, key)
  {
    var p := PageFor(store, k);
    var m := SortedKeys(Matching(store, k.prefix, k.cursor));
    PageKeys(store, k);
    var i :| 0 <= i < |p.items| && p.items[i].key == key;
    assert m[i] in Elems(m);
    assert AtMost(m[i], m[|p.items| - 1]);
  }

  lemma WithinIsListed(store: Store, k: ListKey, key: Str)
    requires key in store && Within(PageFor(store, k), k, key)
    ensures Lists(PageFor(store, k), key)
  {
    var p := PageFor(store, k);
    var m := SortedKeys(Matching(store, k.prefix, k.cursor));
    PageKeys(store, k);
    assert key in Elems(m);
    var j := UpTo(m, |p.items|, key);
    assert p.items[j].key == key;
  }

  lemma PageKeys(store: Store, k: ListKey)
    ensures
      var p := PageFor(store, k);
      var m := SortedKeys(Matching(store, k.prefix, k.cursor));
      && |p.items| == PageLength(|m|, k.limit)
      && (forall i :: 0 <= i < |p.items| ==> p.items[i].key == m[i])
      && (0 < k.limit <= |p.items| ==> p.next == m[|p.items| - 1])
  {
  }

  lemma UpTo(m: seq<Str>, n: nat, key: Str) returns (j: nat)
    requires Ascending(m) && key in m && n <= |m|
    requires n == |m| || (n > 0 && AtMost(key, m[n - 1]))
    ensures j < n && m[j] == key
  {
    j :| 0 <= j < |m| && m[j] == key;
    if 0 < n <= j { Trichotomy(m[n - 1], m[j]); }
  }

  /** Two ascending lists that agree up to one's n-th element start with the same n. */
  lemma {:induction false} AscendingPrefix(a: seq<Str>, b: seq<Str>, n: nat)
    requires Ascending(a) && Ascending(b) && 0 < n <= |a|
    requires forall x :: AtMost(x, a[n - 1]) ==> (x in a <==> x in b)
    ensures n <= |b| && a[..n] == b[..n]
    decreases n
  {
    assert AtMost(a[0], a[n - 1]) && a[0] in a;
    HeadIsLeast(b, a[0]);
    if Less(b[0], a[0]) && n > 1 { Transitive(b[0], a[0], a[n - 1]); }
    assert b[0] in b && AtMost(b[0], a[n - 1]);
    HeadIsLeast(a, b[0]);
    Trichotomy(a[0], b[0]);
    if n > 1 {
      TailElems(a);
      TailElems(b);
      forall x | AtMost(x, a[1..][n - 2]) ensures x in a[1..] <==> x in b[1..] {
        assert x in a[1..] <==> x in Elems(a[1..]);
        assert x in b[1..] <==> x in Elems(b[1..]);
      }
      AscendingPrefix(a[1..], b[1..], n - 1);
    }
    assert a[..n] == [a[0]] + a[1..][..n - 1];
    assert b[..n] == [b[0]] + b[1..][..n - 1];
  }

  lemma SameMatch(store: Store, store': Store, k: ListKey, x: Str)
    requires MetaAt(store, x) == MetaAt(store', x)
    ensures x in SortedKeys(Matching(store, k.prefix, k.cursor)) <==> x in SortedKeys(Matching(store', k.prefix, k.cursor))
  {
    var m, m' := Matching(store, k.prefix, k.cursor), Matching(store', k.prefix, k.cursor);
    assert x in SortedKeys(m) <==> x in Elems(SortedKeys(m));
    assert x in SortedKeys(m') <==> x in Elems(SortedKeys(m'));
    assert x in store <==> MetaAt(store, x).Some?;
    assert x in store' <==> MetaAt(store', x).Some?;
  }

  lemma FirstKeysSame(store: Store, store': Store, key: Str, k: ListKey, n: nat)
    requires store - {key} == store' - {key}
    requires 0 < n <= |SortedKeys(Matching(store, k.prefix, k.cursor))|
    requires !AtMost(key, SortedKeys(Matching(store, k.prefix, k.cursor))[n - 1])
    ensures
      var m, m' := SortedKeys(Matching(store, k.prefix, k.cursor)), SortedKeys(Matching(store', k.prefix, k.cursor));
      n <= |m'| && m[..n] == m'[..n]
  {
    var m := SortedKeys(Matching(store, k.prefix, k.cursor));
    SameElsewhere(store, store', key);
    forall x | AtMost(x, m[n - 1]) ensures x in m <==> x in SortedKeys(Matching(store', k.prefix, k.cursor)) {
      SameMatch(store, store', k, x);
    }
    AscendingPrefix(m, SortedKeys(Matching(store', k.prefix, k.cursor)), n);
  }

  lemma FirstMetasSame(store: Store, store': Store, key: Str, m: seq<Str>, n: nat)
    requires store - {key} == store' - {key} && Ascending(m) && Elems(m) <= store.Keys
    requires 0 < n <= |m| && !AtMost(key, m[n - 1])
    ensures forall x :: x in m[..n] ==> x in store && x in store'
    ensures Metas(store, m[..n]) == Metas(store', m[..n])
  {
    SameElsewhere(store, store', key);
    forall x | x in m[..n] ensures x in store && x != key {
      var i :| 0 <= i < n && m[i] == x;
      assert x in Elems(m) && AtMost(x, m[n - 1]);
    }
    SameMetas(store, store', m[..n]);
  }

  lemma FullPage(store: Store, k: ListKey)
    requires 0 < k.limit <= |SortedKeys(Matching(store, k.prefix, k.cursor))|
    ensures
      var m := SortedKeys(Matching(store, k.prefix, k.cursor));
      && (forall x :: x in m[..k.limit] ==> x in store)
      && PageFor(store, k) == Page(Metas(store, m[..k.limit]), m[k.limit - 1])
  {
    var m := SortedKeys(Matching(store, k.prefix, k.cursor));
    assert forall x :: x in m[..k.limit] ==> x in Elems(m);
  }

  lemma FullPagesSame(store: Store, store': Store, k: ListKey)
    requires
      var m, m' := SortedKeys(Matching(store, k.prefix, k.cursor)), SortedKeys(Matching(store', k.prefix, k.cursor));
      && 0 < k.limit <= |m| && k.limit <= |m'| && m[..k.limit] == m'[..k.limit]
      && (forall x :: x in m[..k.limit] ==> x in store && x in store')
      && Metas(store, m[..k.limit]) == Metas(store', m[..k.limit])
    ensures PageFor(store, k) == PageFor(store', k)
  {
    var m, m' := SortedKeys(Matching(store, k.prefix, k.cursor)), SortedKeys(Matching(store', k.prefix, k.cursor));
    FullPage(store, k);
    FullPage(store', k);
    assert m[k.limit - 1] == m[..k.limit][k.limit - 1] == m'[..k.limit][k.limit - 1];
  }

  /** A write past the end of a full page does not show on it. */
  lemma PastFullPage(store: Store, store': Store, key: Str, k: ListKey)
    requires store - {key} == store' - {key}
    requires 0 < k.limit <= |SortedKeys(Matching(store, k.prefix, k.cursor))|
    requires !AtMost(key, SortedKeys(Matching(store, k.prefix, k.cursor))[k.limit - 1])
    ensures PageFor(store, k) == PageFor(store', k)
  {
    var m := SortedKeys(Matching(store, k.prefix, k.cursor));
    assert Elems(m) <= store.Keys;
    FirstKeysSame(store, store', key, k, k.limit);
    FirstMetasSame(store, store', key, m, k.limit);
    FullPagesSame(store, store', k);
  }

  lemma BeyondPage(store: Store, key: Str, k: ListKey)
    requires k.prefix <= key && (k.cursor == [] || !AtMost(key, k.cursor))
    requires !Within(PageFor(store, k), k, key)
    ensures
      var m := SortedKeys(Matching(store, k.prefix, k.cursor));
      0 < k.limit <= |m| && !AtMost(key, m[k.limit - 1])
  {
    PageKeys(store, k);
    LastOfFullPage(PageFor(store, k), SortedKeys(Matching(store, k.prefix, k.cursor)), k.limit);
  }

  lemma LastOfFullPage(p: Page, m: seq<Str>, limit: int)
    requires |p.items| == PageLength(|m|, limit)
    requires forall i :: 0 <= i < |p.items| ==> p.items[i].key == m[i]
    ensures 0 < limit <= |p.items| ==> limit == |p.items| <= |m| && p.items[|p.items| - 1].key == m[limit - 1]
  {
  }

  lemma HiddenWrite(store: Store, store': Store, key: Str, k: ListKey)
    requires store - {key} == store' - {key}
    requires MetaAt(store, key) == MetaAt(store', key) || !(k.prefix <= key && (k.cursor == [] || !AtMost(key, k.cursor)))
    ensures PageFor(store, k) == PageFor(store', k)
  {
    SameElsewhere(store, store', key);
    assert forall x :: x in store <==> MetaAt(store, x).Some?;
    assert forall x :: x in store' <==> MetaAt(store', x).Some?;
    SameEntriesSamePage(store, store', k);
  }

  /** A write leaves every page it does not touch exactly as it was. */
  lemma UntouchedPage(store: Store, store': Store, key: Str, k: ListKey)
    requires store - {key} == store' - {key}
    requires !Touches(key, k.prefix)
    ensures PageFor(store, k) == PageFor(store', k)
  {
    HiddenWrite(store, store', key, k);
  }

  /** Exactly which pages a write changes: those that cover its key, if what a listing reports of the
      key changes. */
  lemma PageChangesIff(store: Store, store': Store, key: Str, k: ListKey)
    requires store - {key} == store' - {key}
    ensures PageFor(store', k) != PageFor(store, k)
       <==> Within(PageFor(store, k), k, key) && MetaAt(store, key) != MetaAt(store', key)
  {
    var inRange := k.prefix <= key && (k.cursor == [] || !AtMost(key, k.cursor));
    if MetaAt(store, key) == MetaAt(store', key) || !inRange {
      HiddenWrite(store, store', key, k);
    } else if !Within(PageFor(store, k), k, key) {
      BeyondPage(store, key, k);
      PastFullPage(store, store', key, k);
    } else {
      ShownWriteChangesPage(store, store', key, k);
    }
  }

  /** A new key shows on the pages with room for it and on the full ones that end after it. */
  lemma NewKeyChangesPageIff(store: Store, key: Str, value: seq<byte>, stamp: Stamp, k: ListKey)
    requires key !in store
    ensures
      var p := PageFor(store, k);
      PageFor(Written(store, key, value, stamp), k) != p
      <==> && k.prefix <= key && (k.cursor == [] || Less(k.cursor, key))
           && (k.limit <= 0 || |p.items| < k.limit || Less(key, p.next))
  {
    var store' := Written(store, key, value, stamp);
    assert store - {key} == store' - {key};
    PageChangesIff(store, store', key, k);
    WithinForNewKey(store, k, key);
  }

  lemma WithinForNewKey(store: Store, k: ListKey, key: Str)
    requires key !in store
    ensures
      var p := PageFor(store, k);
      Within(p, k, key)
      <==> && k.prefix <= key && (k.cursor == [] || Less(k.cursor, key))
           && (k.limit <= 0 || |p.items| < k.limit || Less(key, p.next))
  {
    PageKeys(store, k);
    ListsIff(store, k, key);
    Trichotomy(k.cursor, key);
  }

  /** Replacing or deleting a key shows on the pages that list it, a replacement only if it changes
      size, tag or time. */
  lemma StoredKeyChangesPageIff(store: Store, store': Store, key: Str, k: ListKey)
    requires key in store && store - {key} == store' - {key}
    ensures PageFor(store', k) != PageFor(store, k)
       <==> Lists(PageFor(store, k), key) && (key in store' ==> MetaOf(store', key) != MetaOf(store, key))
  {
    PageChangesIff(store, store', key, k);
    ListsIff(store, k, key);
  }

  lemma ShownWriteChangesPage(store: Store, store': Store, key: Str, k: ListKey)
    requires Within(PageFor(store, k), k, key) && MetaAt(store, key) != MetaAt(store', key)
    ensures PageFor(store', k) != PageFor(store, k)
  {
    var p := PageFor(store, k);
    if PageFor(store', k) == p {
      // one of the stores holds the key, so the page lists it, so both report it alike
      ListsIff(store, k, key);
      ListsIff(store', k, key);
    }
  }

  // ---------------------------------------------------------------- whole runs

  datatype Cached = Cached(key: ListKey, page: Page)

  /** An embedded database: cold store plus cached pages by map key. */
  datatype Db = Db(store: Store, pages: map<Str, Cached>)

  datatype Event =
    | Put(key: Str, value: seq<byte>, expected: Str, stamp: Stamp)
    | Delete(key: Str, expected: Str)
    | LostPut(key: Str, value: seq<byte>, expected: Str, stamp: Stamp)   // took effect, reported an error
    | LostDelete(key: Str, expected: Str)
    | ListPage(query: ListKey)
    | Drop(gone: set<Str>)   // expiry, capacity eviction, purge

  function Invalidated(pages: map<Str, Cached>, key: Str): map<Str, Cached> {
    map s | s in pages && !Touches(key, pages[s].key.prefix) :: pages[s]
  }

  ghost function Answer(db: Db, query: ListKey): Page {
    if KeyString(query) in db.pages then db.pages[KeyString(query)].page
    else PageFor(db.store, query)
  }

  function AfterPut(store: Store, key: Str, value: seq<byte>, expected: Str, stamp: Stamp): Store {
    if PutRefusal(store, key, expected).Some? then store else Written(store, key, value, stamp)
  }

  function AfterDelete(store: Store, key: Str, expected: Str): Store {
    if DeleteRefusal(store, key, expected).Some? then store else store - {key}
  }

  /** Pages are invalidated after a write that reports success, and only then. */
  ghost function Next(db: Db, e: Event): Db {
    match e
    case Put(key, value, expected, stamp) =>
      if PutRefusal(db.store, key, expected).Some? then db
      else Db(Written(db.store, key, value, stamp), Invalidated(db.pages, key))
    case Delete(key, expected) =>
      if DeleteRefusal(db.store, key, expected).Some? then db
      else Db(db.store - {key}, Invalidated(db.pages, key))
    case LostPut(key, value, expected, stamp) => db.(store := AfterPut(db.store, key, value, expected, stamp))
    case LostDelete(key, expected) => db.(store := AfterDelete(db.store, key, expected))
    case ListPage(query) =>
      db.(pages := db.pages[KeyString(query) := Cached(
        if KeyString(query) in db.pages then db.pages[KeyString(query)].key else query,
        Answer(db, query))])
    case Drop(gone) => db.(pages := db.pages - gone)
  }

  ghost predicate Coherent(db: Db) {
    forall s :: s in db.pages ==>
      && s == KeyString(db.pages[s].key) && BAR !in db.pages[s].key.prefix
      && db.pages[s].page == PageFor(db.store, db.pages[s].key)
  }

  lemma WriteKeepsCoherent(db: Db, store': Store, key: Str)
    requires Coherent(db) && db.store - {key} == store' - {key}
    ensures Coherent(Db(store', Invalidated(db.pages, key)))
  {
    forall s | s in Invalidated(db.pages, key)
      ensures db.pages[s].page == PageFor(store', db.pages[s].key)
    {
      UntouchedPage(db.store, store', key, db.pages[s].key);
    }
  }

  lemma DropAndAdmitKeepCoherent(db: Db, gone: set<Str>, query: ListKey)
    requires Coherent(db) && BAR !in query.prefix
    ensures Coherent(Db(db.store,
      (db.pages - gone)[KeyString(query) := Cached(query, PageFor(db.store, query))]))
  {
  }

  lemma CoherentAnswer(db: Db, query: ListKey)
    requires Coherent(db) && BAR !in query.prefix
    ensures Answer(db, query) == PageFor(db.store, query)
  {
    var s := KeyString(query);
    if s in db.pages {
      KeyStringInjective(query, db.pages[s].key);
    }
  }

  /** Every answer given along a run is the driver's answer for the store of that moment. */
  ghost predicate AnswersExact(db: Db, es: seq<Event>)
    decreases |es|
  {
    es != [] ==>
      && (es[0].ListPage? ==> Answer(db, es[0].query) == PageFor(db.store, es[0].query))
      && AnswersExact(Next(db, es[0]), es[1..])
  }

  ghost predicate Lost(e: Event) {
    e.LostPut? || e.LostDelete?
  }

  /** A lost write that no cached page shows. Every other event is harmless. */
  ghost predicate Harmless(db: Db, e: Event) {
    Lost(e) && MetaAt(db.store, e.key) != MetaAt(Next(db, e).store, e.key) ==>
      forall s :: s in db.pages ==> !Within(db.pages[s].page, db.pages[s].key, e.key)
  }

  ghost predicate HarmlessRun(db: Db, es: seq<Event>)
    decreases |es|
  {
    es != [] ==> Harmless(db, es[0]) && HarmlessRun(Next(db, es[0]), es[1..])
  }

  lemma LostChangesOneKey(db: Db, e: Event)
    requires Lost(e)
    ensures db.store - {e.key} == Next(db, e).store - {e.key}
  {
  }

  /** A lost write leaves the cached pages right exactly when it is harmless. */
  lemma LostWriteKeepsCoherentIff(db: Db, e: Event)
    requires Coherent(db) && Lost(e)
    ensures Coherent(Next(db, e)) <==> Harmless(db, e)
  {
    LostChangesOneKey(db, e);
    forall s | s in db.pages
      ensures PageFor(Next(db, e).store, db.pages[s].key) != db.pages[s].page
         <==> && Within(db.pages[s].page, db.pages[s].key, e.key)
              && MetaAt(db.store, e.key) != MetaAt(Next(db, e).store, e.key)
    {
      PageChangesIff(db.store, Next(db, e).store, e.key, db.pages[s].key);
    }
  }

  lemma {:induction false} RunsAnswerExactly(db: Db, es: seq<Event>)
    requires Coherent(db) && HarmlessRun(db, es)
    requires forall e :: e in es && e.ListPage? ==> BAR !in e.query.prefix
    ensures AnswersExact(db, es)
    decreases |es|
  {
    if es != [] {
      StepKeepsCoherent(db, es[0]);
      if es[0].ListPage? {
        CoherentAnswer(db, es[0].query);
      }
      RunsAnswerExactly(Next(db, es[0]), es[1..]);
    }
  }

  lemma StepKeepsCoherent(db: Db, e: Event)
    requires Coherent(db) && Harmless(db, e) && (e.ListPage? ==> BAR !in e.query.prefix)
    ensures Coherent(Next(db, e))
  {
    match e {
      case Put(key, value, expected, stamp) =>
        var store' := Written(db.store, key, value, stamp);
        assert db.store - {key} == store' - {key};
        WriteKeepsCoherent(db, store', key);
      case Delete(key, expected) =>
        WriteKeepsCoherent(db, db.store - {key}, key);
      case LostPut(_, _, _, _) => LostWriteKeepsCoherentIff(db, e);
      case LostDelete(_, _) => LostWriteKeepsCoherentIff(db, e);
      case ListPage(query) => CoherentAnswer(db, query);
      case Drop(gone) =>
    }
  }

  /** A page listed before and after a lost write is served stale exactly when the page covers the
      key and the write changed what a listing reports of it. */
  lemma LostWriteServedStaleIff(db: Db, query: ListKey, e: Event)
    requires Coherent(db) && BAR !in query.prefix && Lost(e)
    ensures AnswersExact(db, [ListPage(query), e, ListPage(query)])
       <==> !(&& Within(PageFor(db.store, query), query, e.key)
              && MetaAt(db.store, e.key) != MetaAt(Next(db, e).store, e.key))
  {
    CoherentAnswer(db, query);
    LostChangesOneKey(db, e);
    PageChangesIff(db.store, Next(db, e).store, e.key, query);
    ListedTwice(db, query, e);
  }

  lemma ListedTwice(db: Db, query: ListKey, e: Event)
    requires Lost(e)
    ensures AnswersExact(db, [ListPage(query), e, ListPage(query)])
       <==> Answer(db, query) == PageFor(db.store, query) == PageFor(Next(db, e).store, query)
  {
    var es := [ListPage(query), e, ListPage(query)];
    var db1 := Next(db, ListPage(query));
    var db2 := Next(db1, e);
    assert es[1..] == [e, ListPage(query)] && es[1..][1..] == [ListPage(query)];
    assert Answer(db2, query) == Answer(db, query) && db2.store == Next(db, e).store;
    assert AnswersExact(Next(db2, ListPage(query)), [ListPage(query)][1..]);
    assert AnswersExact(db2, [ListPage(query)]) <==> Answer(db2, query) == PageFor(db2.store, query);
    assert AnswersExact(db1, [e, ListPage(query)]) <==> AnswersExact(db2, [ListPage(query)]);
  }

  /** A run from the empty database that serves a stale page, at the page size the database uses. */
  lemma LostWriteLeavesStalePage(prefix: Str, key: Str, value: seq<byte>, stamp: Stamp)
    requires BAR !in prefix && prefix <= key
    ensures
      var query := ListKey(prefix, [], 1000);
      !AnswersExact(Db(map[], map[]), [ListPage(query), LostPut(key, value, NO_ETAG, stamp), ListPage(query)])
  {
    var query := ListKey(prefix, [], 1000);
    var db := Db(map[], map[]);
    assert Matching(db.store, prefix, []) == {};
    assert PageFor(db.store, query).items == [];
    LostWriteServedStaleIff(db, query, LostPut(key, value, NO_ETAG, stamp));
  }
}
