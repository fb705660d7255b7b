/** Cold storage as the in-memory driver implements it: conditional writes and cursor paging. */
module Storage {
  import opened Base
  import opened Order

  datatype Object = Object(key: Str, value: seq<byte>, etag: Str, modTime: int)
  datatype Entry = Entry(value: seq<byte>, etag: Str, modTime: int)
  datatype KeyMeta = KeyMeta(key: Str, size: nat, etag: Str, modTime: int)
  datatype Error = NotFound | VersionMismatch | AlreadyExists

  datatype Result<+T> = Ok(value: T) | Err(error: Error)

  type Store = map<Str, Entry>

  /** What the driver's clock and hash produce for one write. */
  datatype Stamp = Stamp(etag: Str, modTime: int)

  const NO_ETAG: Str := []
  const ANY_ETAG: Str := [0x2A]

  /** A tag a driver can issue, and so one a client can name. */
  predicate RealTag(tag: Str) {
    tag != NO_ETAG && tag != ANY_ETAG
  }

  function ObjectAt(store: Store, key: Str): Object
    requires key in store
  {
    Object(key, store[key].value, store[key].etag, store[key].modTime)
  }

  function Read(store: Store, key: Str): Result<Object> {
    if key in store then Ok(ObjectAt(store, key)) else Err(NotFound)
  }

  function PutRefusal(store: Store, key: Str, expected: Str): Option<Error> {
    if expected == NO_ETAG then None
    else if expected == ANY_ETAG then
      if key in store then Some(AlreadyExists) else None
    else if key !in store then Some(NotFound)
    else if store[key].etag != expected then Some(VersionMismatch)
    else None
  }

  function DeleteRefusal(store: Store, key: Str, expected: Str): Option<Error> {
    if key !in store then Some(NotFound)
    else if expected != NO_ETAG && expected != ANY_ETAG && store[key].etag != expected
    then Some(VersionMismatch)
    else None
  }

  function Written(store: Store, key: Str, value: seq<byte>, stamp: Stamp): Store {
    store[key := Entry(value, stamp.etag, stamp.modTime)]
  }

  /** The versioning rules as a client meets them: without a tag a put always goes through, `*` means
      the key must not exist, any other tag must be the current one. */
  lemma PutRules(store: Store, key: Str, expected: Str)
    ensures expected == [] ==> PutRefusal(store, key, expected) == None
    ensures expected == [0x2A] ==> PutRefusal(store, key, expected) == if key in store then Some(AlreadyExists) else None
    ensures expected != [] && expected != [0x2A] ==>
      PutRefusal(store, key, expected)
      == if key !in store then Some(NotFound) else if store[key].etag != expected then Some(VersionMismatch) else None
  {
  }

  /** And for a delete: there must be something to delete, and a tag other than `*` must be current. */
  lemma DeleteRules(store: Store, key: Str, expected: Str)
    ensures DeleteRefusal(store, key, expected) == Some(NotFound) <==> key !in store
    ensures DeleteRefusal(store, key, expected) == Some(VersionMismatch)
       <==> key in store && expected != [] && expected != [0x2A] && expected != store[key].etag
    ensures DeleteRefusal(store, key, expected) != Some(AlreadyExists)
  {
  }

  /** What was written is what is read back, and no other key reads differently. */
  lemma WrittenReadsBack(store: Store, key: Str, value: seq<byte>, stamp: Stamp, other: Str)
    ensures Read(Written(store, key, value, stamp), other)
         == if other == key then Ok(Object(key, value, stamp.etag, stamp.modTime))
            else if other in store then Ok(Object(other, store[other].value, store[other].etag, store[other].modTime))
            else Err(NotFound)
  {
  }

  function MetaOf(store: Store, key: Str): KeyMeta
    requires key in store
  {
    KeyMeta(key, |store[key].value|, store[key].etag, store[key].modTime)
  }

  // ---------------------------------------------------------------- paging

  datatype Page = Page(items: seq<KeyMeta>, next: Str)

  ghost function Matching(store: Store, prefix: Str, cursor: Str): set<Str> {
    set k | k in store && prefix <= k && (cursor == [] || !AtMost(k, cursor))
  }

  ghost function Metas(store: Store, keys: seq<Str>): seq<KeyMeta>
    requires forall k :: k in keys ==> k in store
  {
    seq(|keys|, i requires 0 <= i < |keys| => assert keys[i] in keys; MetaOf(store, keys[i]))
  }

  /** How many of `found` keys a page of the given limit holds. */
  function PageLength(found: nat, limit: int): nat {
    if 0 < limit < found then limit else found
  }

  /** One page: the first `limit` matching keys in order, and the last of them as the cursor
      exactly when the page is full. */
  ghost function PageOf(store: Store, prefix: Str, cursor: Str, limit: int): Page {
    var m := SortedKeys(Matching(store, prefix, cursor));
    var n := PageLength(|m|, limit);
    assert forall k :: k in m[..n] ==> k in Elems(m);
    Page(Metas(store, m[..n]), if limit <= 0 || n < limit then [] else m[n - 1])
  }

  ghost predicate Reports(store: Store, m: KeyMeta) {
    m.key in store && m.size == |store[m.key].value| && m.etag == store[m.key].etag && m.modTime == store[m.key].modTime
  }

  /** What a listing is, said without saying how it is made: true reports of stored keys below the
      prefix and past the cursor, in order, at most `limit` of them if that is positive, and none left
      out before the last one - nor after it, if the limit was not reached. */
  ghost predicate ListingOf(store: Store, prefix: Str, cursor: Str, limit: int, items: seq<KeyMeta>) {
    && (forall i :: 0 <= i < |items| ==>
          Reports(store, items[i]) && prefix <= items[i].key && (cursor == [] || Less(cursor, items[i].key)))
    && (forall i, j :: 0 <= i < j < |items| ==> Less(items[i].key, items[j].key))
    && (limit > 0 ==> |items| <= limit)
    && (forall k :: k in store && prefix <= k && (cursor == [] || Less(cursor, k)) ==>
          || (exists i :: 0 <= i < |items| && items[i].key == k)
          || (limit > 0 && |items| == limit && Less(items[limit - 1].key, k)))
  }

  lemma FirstAreListing(store: Store, prefix: Str, cursor: Str, limit: int, m: seq<Str>, items: seq<KeyMeta>)
    requires Ascending(m) && Elems(m) == Matching(store, prefix, cursor)
    requires |items| == PageLength(|m|, limit)
    requires forall i :: 0 <= i < |items| ==> m[i] in store && items[i] == MetaOf(store, m[i])
    ensures ListingOf(store, prefix, cursor, limit, items)
  {
    forall i | 0 <= i < |m| ensures m[i] in store && prefix <= m[i] && (cursor == [] || Less(cursor, m[i])) {
      assert m[i] in Elems(m);
      Trichotomy(m[i], cursor);
    }
    forall k | k in store && prefix <= k && (cursor == [] || Less(cursor, k))
      ensures || (exists i :: 0 <= i < |items| && items[i].key == k)
              || (limit > 0 && |items| == limit && Less(items[limit - 1].key, k))
    {
      Trichotomy(k, cursor);
      assert k in Elems(m);
      var j :| 0 <= j < |m| && m[j] == k;
      if j < |items| {
        assert items[j].key == k;
      }
    }
  }

  lemma PageParts(store: Store, prefix: Str, cursor: Str, limit: int, m: seq<Str>)
    requires m == SortedKeys(Matching(store, prefix, cursor))
    ensures forall k :: k in m ==> k in store
    ensures
      var n := PageLength(|m|, limit);
      PageOf(store, prefix, cursor, limit)
      == Page(Metas(store, m[..n]), if limit <= 0 || n < limit then [] else m[n - 1])
  {
    ElemsAre(m, Matching(store, prefix, cursor));
    assert forall k :: k in m[..PageLength(|m|, limit)] ==> k in m;
  }

  lemma PageItems(store: Store, prefix: Str, cursor: Str, limit: int)
    ensures
      var m := SortedKeys(Matching(store, prefix, cursor));
      var p := PageOf(store, prefix, cursor, limit);
      && |p.items| == PageLength(|m|, limit)
      && (forall i :: 0 <= i < |p.items| ==> m[i] in store && p.items[i] == MetaOf(store, m[i]))
      && p.next == if limit > 0 && |p.items| == limit then m[limit - 1] else []
  {
    var m := SortedKeys(Matching(store, prefix, cursor));
    PageParts(store, prefix, cursor, limit, m);
    FrontItems(store, m, limit, PageOf(store, prefix, cursor, limit));
  }

  lemma FrontItems(store: Store, m: seq<Str>, limit: int, p: Page)
    requires forall k :: k in m ==> k in store
    requires
      var n := PageLength(|m|, limit);
      p == Page(Metas(store, m[..n]), if limit <= 0 || n < limit then [] else m[n - 1])
    ensures |p.items| == PageLength(|m|, limit)
    ensures forall i :: 0 <= i < |p.items| ==> m[i] in store && p.items[i] == MetaOf(store, m[i])
    ensures p.next == if limit > 0 && |p.items| == limit then m[limit - 1] else []
  {
    assert forall i :: 0 <= i < |m| ==> m[i] in m;
  }

  lemma PageIsListing(store: Store, prefix: Str, cursor: Str, limit: int)
    ensures
      var p := PageOf(store, prefix, cursor, limit);
      && ListingOf(store, prefix, cursor, limit, p.items)
      && p.next == if limit > 0 && |p.items| == limit then p.items[|p.items| - 1].key else []
  {
    var m := SortedKeys(Matching(store, prefix, cursor));
    PageItems(store, prefix, cursor, limit);
    FirstAreListing(store, prefix, cursor, limit, m, PageOf(store, prefix, cursor, limit).items);
  }

  class Driver {
    var data: Store

    constructor ()
      ensures data == map[]
    {
      data := map[];
    }

    method Get(key: Str) returns (r: Result<Object>)
      ensures r == Read(data, key)
      ensures r == if key in data then Ok(Object(key, data[key].value, data[key].etag, data[key].modTime)) else Err(NotFound)
    {
      if key !in data { return Err(NotFound); }
      var e := data[key];
      r := Ok(Object(key, e.value, e.etag, e.modTime));
    }

    method Put(key: Str, value: seq<byte>, expected: Str, stamp: Stamp) returns (r: Result<Object>)
      modifies this
      ensures match PutRefusal(old(data), key, expected)
              case Some(e) => data == old(data) && r == Err(e)
              case None => data == Written(old(data), key, value, stamp) && r == Read(data, key)
      ensures r.Ok? <==> || expected == [] || (expected == [0x2A] && key !in old(data))
                         || (expected != [0x2A] && key in old(data) && old(data)[key].etag == expected)
      ensures r.Ok? ==> r.value == Object(key, value, stamp.etag, stamp.modTime)
      ensures data == if r.Ok? then old(data)[key := Entry(value, stamp.etag, stamp.modTime)] else old(data)
    {
      if expected != NO_ETAG {
        if expected == ANY_ETAG {
          if key in data { return Err(AlreadyExists); }
        } else {
          if key !in data { return Err(NotFound); }
          if data[key].etag != expected { return Err(VersionMismatch); }
        }
      }
      data := data[key := Entry(value, stamp.etag, stamp.modTime)];
      r := Ok(Object(key, value, stamp.etag, stamp.modTime));
    }

    method Delete(key: Str, expected: Str) returns (r: Result<()>)
      modifies this
      ensures match DeleteRefusal(old(data), key, expected)
              case Some(e) => data == old(data) && r == Err(e)
              case None => data == old(data) - {key} && r == Ok(())
      ensures r.Ok? <==> key in old(data) && (expected == [] || expected == [0x2A] || expected == old(data)[key].etag)
    {
      if key !in data { return Err(NotFound); }
      if expected != NO_ETAG && expected != ANY_ETAG {
        if data[key].etag != expected { return Err(VersionMismatch); }
      }
      data := data - {key};
      r := Ok(());
    }

    /** The keys a listing has to report, in the order the map yields them. */
    method MatchingKeys(prefix: Str, cursor: Str) returns (keys: seq<Str>)
      ensures NoDup(keys) && Elems(keys) == Matching(data, prefix, cursor)
    {
      keys := [];
      var todo := data.Keys;
      while todo != {}
        invariant todo <= data.Keys
        invariant NoDup(keys)
        invariant Elems(keys) == Matching(data, prefix, cursor) - todo
      {
        var k :| k in todo;
        todo := todo - {k};
        if prefix <= k && (cursor == [] || !AtMost(k, cursor)) {
          assert k !in Elems(keys);
          assert Elems(keys + [k]) == Elems(keys) + {k};
          keys := keys + [k];
        }
      }
    }

    /** The page-filling loop over the sorted keys. */
    method FillPage(keys: seq<Str>, limit: int) returns (results: seq<KeyMeta>, next: Str)
      requires forall k :: k in keys ==> k in data
      ensures
        var n := PageLength(|keys|, limit);
        results == Metas(data, keys[..n]) && next == if limit <= 0 || n < limit then [] else keys[n - 1]
    {
      results, next := [], [];
      var i := 0;
      while i < |keys| && !(limit > 0 && |results| >= limit)
        invariant 0 <= i <= |keys| && (limit > 0 ==> i <= limit)
        invariant |results| == i
        invariant forall j :: 0 <= j < i ==> results[j] == MetaOf(data, keys[j])
        invariant next == if i == 0 then [] else keys[i - 1]
      {
        results := results + [MetaOf(data, keys[i])];
        next := keys[i];
        i := i + 1;
      }
      assert i == PageLength(|keys|, limit);
      assert results == Metas(data, keys[..i]);
      if limit <= 0 || |results| < limit {
        next := [];
      }
    }

    /** Listing without a delimiter, the only form the database asks for. */
    method List(prefix: Str, limit: int, cursor: Str) returns (results: seq<KeyMeta>, next: Str)
      ensures Page(results, next) == PageOf(data, prefix, cursor, limit)
      ensures ListingOf(data, prefix, cursor, limit, results)
      ensures next == if limit > 0 && |results| == limit then results[|results| - 1].key else []
    {
      var keys := MatchingKeys(prefix, cursor);
      SortIsSortedKeys(keys);
      results, next := FillSorted(Sort(keys), limit, prefix, cursor);
      PageIsListing(data, prefix, cursor, limit);
    }

    method FillSorted(keys: seq<Str>, limit: int, ghost prefix: Str, ghost cursor: Str)
      returns (results: seq<KeyMeta>, next: Str)
      requires keys == SortedKeys(Matching(data, prefix, cursor))
      ensures Page(results, next) == PageOf(data, prefix, cursor, limit)
    {
      PageParts(data, prefix, cursor, limit, keys);
      results, next := FillPage(keys, limit);
    }
  }

  lemma ElemsAre(keys: seq<Str>, s: set<Str>)
    requires Elems(keys) == s
    ensures forall k :: k in keys ==> k in s
  {
  }
}
