/** Sixty-four independently locked LRU lists that together behave as one. */
module Lru {
  import opened Base
  import opened Storage

  const SHARD_COUNT: nat := 64

  /** A cached object. `size` is what was reserved for it, fixed for the entry's lifetime. */
  datatype Item = Item(key: Str, obj: Object, size: nat, lastAccessed: nat)

  /** `items` and `lru` (most recent first) refer to the same elements, as the map and the linked
      list of the code do. */
  datatype Shard = Shard(items: map<Str, Item>, lru: seq<Item>, bytes: int)

  // ---------------------------------------------------------------- lists of items

  ghost predicate DistinctKeys(g: seq<Item>) {
    forall i, j :: 0 <= i < j < |g| ==> g[i].key != g[j].key
  }

  ghost predicate NewestFirst(g: seq<Item>) {
    forall i, j :: 0 <= i < j < |g| ==> g[i].lastAccessed > g[j].lastAccessed
  }

  function Sizes(g: seq<Item>): nat {
    if g == [] then 0 else g[0].size + Sizes(g[1..])
  }

  function Drop(g: seq<Item>, key: Str): seq<Item> {
    if g == [] then []
    else if g[0].key == key then Drop(g[1..], key)
    else [g[0]] + Drop(g[1..], key)
  }

  /** The part of the list that lives in shard `i`. */
  function Only(g: seq<Item>, shardOf: Str -> nat, i: nat): seq<Item> {
    if g == [] then []
    else if shardOf(g[0].key) == i then [g[0]] + Only(g[1..], shardOf, i)
    else Only(g[1..], shardOf, i)
  }

  lemma {:induction false} DropElems(g: seq<Item>, key: Str)
    ensures forall it :: it in Drop(g, key) <==> it in g && it.key != key
  {
    if g != [] { DropElems(g[1..], key); }
  }

  lemma {:induction false} OnlyElems(g: seq<Item>, shardOf: Str -> nat, i: nat)
    ensures forall it :: it in Only(g, shardOf, i) <==> it in g && shardOf(it.key) == i
  {
    if g != [] { OnlyElems(g[1..], shardOf, i); }
  }

  lemma {:induction false} DropAbsent(g: seq<Item>, key: Str)
    requires forall it :: it in g ==> it.key != key
    ensures Drop(g, key) == g
  {
    if g != [] {
      assert forall it :: it in g[1..] ==> it in g;
      DropAbsent(g[1..], key);
    }
  }

  /** Sharding and removal commute. */
  lemma {:induction false} OnlyDrop(g: seq<Item>, shardOf: Str -> nat, i: nat, key: Str)
    ensures Only(Drop(g, key), shardOf, i) == Drop(Only(g, shardOf, i), key)
  {
    if g != [] {
      OnlyDrop(g[1..], shardOf, i, key);
      var rest := Only(g[1..], shardOf, i);
      if g[0].key != key {
        assert ([g[0]] + Drop(g[1..], key))[1..] == Drop(g[1..], key);
      }
      if shardOf(g[0].key) == i {
        assert ([g[0]] + rest)[1..] == rest;
      }
    }
  }

  lemma {:induction false} OnlyLast(g: seq<Item>, shardOf: Str -> nat, i: nat)
    requires g != []
    ensures
      var last := g[|g| - 1];
      Only(g, shardOf, i) == Only(g[..|g| - 1], shardOf, i) + (if shardOf(last.key) == i then [last] else [])
  {
    if |g| > 1 {
      OnlyLast(g[1..], shardOf, i);
      assert g[1..][..|g| - 2] == g[..|g| - 1][1..];
    } else {
      assert g[..0] == [] && g[1..] == [];
    }
  }

  lemma {:induction false} DropKeepsNewest(g: seq<Item>, key: Str)
    requires NewestFirst(g)
    ensures NewestFirst(Drop(g, key))
  {
    if g != [] {
      DropKeepsNewest(g[1..], key);
      DropElems(g[1..], key);
    }
  }

  lemma {:induction false} DropKeepsDistinct(g: seq<Item>, key: Str)
    requires DistinctKeys(g)
    ensures DistinctKeys(Drop(g, key))
  {
    if g != [] {
      DropKeepsDistinct(g[1..], key);
      DropElems(g[1..], key);
    }
  }

  /** The size recorded for a key, zero if it is absent. */
  function SizeOf(g: seq<Item>, key: Str): nat {
    if g == [] then 0 else if g[0].key == key then g[0].size else SizeOf(g[1..], key)
  }

  lemma {:induction false} SizesDrop(g: seq<Item>, key: Str)
    requires DistinctKeys(g)
    ensures Sizes(Drop(g, key)) == Sizes(g) - SizeOf(g, key)
  {
    if g != [] {
      if g[0].key == key {
        assert forall it :: it in g[1..] ==> it.key != key;
        DropAbsent(g[1..], key);
      } else {
        SizesDrop(g[1..], key);
        assert ([g[0]] + Drop(g[1..], key))[1..] == Drop(g[1..], key);
      }
    }
  }

  lemma {:induction false} SizesLast(g: seq<Item>)
    requires g != []
    ensures Sizes(g) == Sizes(g[..|g| - 1]) + g[|g| - 1].size
  {
    if |g| > 1 {
      SizesLast(g[1..]);
      assert g[1..][..|g| - 2] == g[..|g| - 1][1..];
    }
  }

  lemma {:induction false} SizeOfElem(g: seq<Item>, it: Item)
    requires DistinctKeys(g) && it in g
    ensures SizeOf(g, it.key) == it.size
  {
    if g[0] != it {
      assert it in g[1..];
      SizeOfElem(g[1..], it);
      assert exists j :: 0 <= j < |g[1..]| && g[1..][j] == it;
      assert g[0].key != it.key;
    }
  }

  /** Moving or pushing an item to the front. */
  lemma FrontList(g: seq<Item>, it: Item)
    ensures
      var g' := [it] + Drop(g, it.key);
      && g'[1..] == Drop(g, it.key)
      && (DistinctKeys(g) ==> DistinctKeys(g') && Sizes(g') == Sizes(g) - SizeOf(g, it.key) + it.size)
      && (NewestFirst(g) && (forall x :: x in g ==> x.lastAccessed < it.lastAccessed) ==> NewestFirst(g'))
      && (forall x :: x in g' <==> x == it || (x in g && x.key != it.key))
  {
    DropElems(g, it.key);
    if NewestFirst(g) { DropKeepsNewest(g, it.key); }
    if DistinctKeys(g) { DropKeepsDistinct(g, it.key); SizesDrop(g, it.key); }
    Pushed(Drop(g, it.key), it);
  }

  lemma Pushed(d: seq<Item>, it: Item)
    ensures ([it] + d)[1..] == d && Sizes([it] + d) == it.size + Sizes(d)
    ensures forall x :: x in [it] + d <==> x == it || x in d
    ensures DistinctKeys(d) && (forall x :: x in d ==> x.key != it.key) ==> DistinctKeys([it] + d)
    ensures NewestFirst(d) && (forall x :: x in d ==> x.lastAccessed < it.lastAccessed) ==> NewestFirst([it] + d)
  {
    assert ([it] + d)[1..] == d;
  }

  lemma OnlyFront(g: seq<Item>, shardOf: Str -> nat, i: nat, it: Item)
    ensures Only([it] + Drop(g, it.key), shardOf, i)
         == if shardOf(it.key) == i then [it] + Drop(Only(g, shardOf, i), it.key) else Only(g, shardOf, i)
  {
    assert ([it] + Drop(g, it.key))[1..] == Drop(g, it.key);
    OnlyDrop(g, shardOf, i, it.key);
    OnlyElsewhere(g, shardOf, i, it.key);
  }

  lemma OnlyElsewhere(g: seq<Item>, shardOf: Str -> nat, i: nat, key: Str)
    ensures shardOf(key) != i ==> Drop(Only(g, shardOf, i), key) == Only(g, shardOf, i)
  {
  }

  // ---------------------------------------------------------------- one shard

  /** Map and list refer to the same elements. */
  ghost predicate Indexed(items: map<Str, Item>, lru: seq<Item>) {
    && (forall it :: it in lru ==> it.key in items && items[it.key] == it)
    && (forall k :: k in items ==> items[k].key == k && items[k] in lru)
  }

  /** Map and list are in bijection and `bytes` is what they hold. */
  ghost predicate ShardOk(s: Shard) {
    DistinctKeys(s.lru) && Indexed(s.items, s.lru) && s.bytes == Sizes(s.lru)
  }

  lemma FrontIndexed(items: map<Str, Item>, lru: seq<Item>, it: Item, lru': seq<Item>)
    requires Indexed(items, lru)
    requires forall x :: x in lru' <==> x == it || (x in lru && x.key != it.key)
    ensures Indexed(items[it.key := it], lru')
  {
  }

  lemma DropIndexed(items: map<Str, Item>, lru: seq<Item>, key: Str, lru': seq<Item>)
    requires Indexed(items, lru)
    requires forall x :: x in lru' <==> x in lru && x.key != key
    ensures Indexed(items - {key}, lru')
  {
  }

  function Clamp(n: int): nat {
    if n < 0 then 0 else n
  }

  /** A hit: stamp the item and move it to the front. */
  function Touched(s: Shard, key: Str, now: nat): Shard
    requires key in s.items
  {
    var it := s.items[key].(lastAccessed := now);
    Shard(s.items[key := it], [it] + Drop(s.lru, key), s.bytes)
  }

  /** The locked part of admit: replace in place or push, always at the front. */
  function Inserted(s: Shard, it: Item): (Shard, nat) {
    var replaced := if it.key in s.items then s.items[it.key].size else 0;
    (Shard(s.items[it.key := it], [it] + Drop(s.lru, it.key), Clamp(s.bytes + it.size - replaced)), replaced)
  }

  /** dropLocked and removeElemLocked. */
  function Dropped(s: Shard, key: Str): (Shard, nat) {
    if key !in s.items then (s, 0)
    else (Shard(s.items - {key}, Drop(s.lru, key), Clamp(s.bytes - s.items[key].size)), s.items[key].size)
  }

  lemma FrontOk(s: Shard, it: Item, bytes: int)
    requires ShardOk(s)
    requires bytes == s.bytes + it.size - SizeOf(s.lru, it.key)
    ensures ShardOk(Shard(s.items[it.key := it], [it] + Drop(s.lru, it.key), bytes))
  {
    FrontList(s.lru, it);
    FrontIndexed(s.items, s.lru, it, [it] + Drop(s.lru, it.key));
  }

  lemma SizeInShard(s: Shard, key: Str)
    requires ShardOk(s)
    ensures SizeOf(s.lru, key) == if key in s.items then s.items[key].size else 0
    ensures SizeOf(s.lru, key) <= s.bytes
  {
    SizesDrop(s.lru, key);
    if key in s.items {
      SizeOfElem(s.lru, s.items[key]);
    } else {
      DropAbsent(s.lru, key);
    }
  }

  lemma DroppedOk(s: Shard, key: Str)
    requires ShardOk(s)
    ensures ShardOk(Dropped(s, key).0)
    ensures Dropped(s, key).0.lru == Drop(s.lru, key) && Dropped(s, key).1 == SizeOf(s.lru, key)
  {
    SizeInShard(s, key);
    DropElems(s.lru, key);
    DropKeepsDistinct(s.lru, key);
    SizesDrop(s.lru, key);
    if key !in s.items {
      DropAbsent(s.lru, key);
    } else {
      DropIndexed(s.items, s.lru, key, Drop(s.lru, key));
    }
  }

  // ---------------------------------------------------------------- all shards

  function ShardOf(hash: Str -> nat): Str -> nat {
    key => hash(key) % SHARD_COUNT
  }

  /** Each shard is in order and holds its section of the list. */
  ghost predicate Sections(shards: seq<Shard>, shardOf: Str -> nat, g: seq<Item>) {
    && |shards| == SHARD_COUNT
    && forall i :: 0 <= i < SHARD_COUNT ==> ShardOk(shards[i]) && shards[i].lru == Only(g, shardOf, i)
  }

  ghost predicate Recency(g: seq<Item>) {
    NewestFirst(g) && DistinctKeys(g) && forall it :: it in g ==> it.lastAccessed > 0
  }

  /** The shards are the sections of one list, newest first. */
  ghost predicate Represents(shards: seq<Shard>, hash: Str -> nat, g: seq<Item>) {
    Sections(shards, ShardOf(hash), g) && Recency(g)
  }

  /** Everything in the list is older than `now`. */
  ghost predicate Before(g: seq<Item>, now: nat) {
    now > 0 && forall it :: it in g ==> it.lastAccessed < now
  }

  lemma ReplaceSection(shards: seq<Shard>, shardOf: Str -> nat, g: seq<Item>, g': seq<Item>, j: nat, s': Shard)
    requires Sections(shards, shardOf, g) && j < SHARD_COUNT
    requires ShardOk(s') && s'.lru == Only(g', shardOf, j)
    requires forall i :: 0 <= i < SHARD_COUNT && i != j ==> Only(g', shardOf, i) == Only(g, shardOf, i)
    ensures Sections(shards[j := s'], shardOf, g')
  {
  }

  lemma FrontRepresents(shards: seq<Shard>, hash: Str -> nat, g: seq<Item>, it: Item, s': Shard)
    requires Represents(shards, hash, g) && Before(g, it.lastAccessed)
    requires ShardOk(s') && s'.lru == [it] + Drop(shards[ShardOf(hash)(it.key)].lru, it.key)
    ensures Represents(shards[ShardOf(hash)(it.key) := s'], hash, [it] + Drop(g, it.key))
  {
    FrontList(g, it);
    var shardOf, g' := ShardOf(hash), [it] + Drop(g, it.key);
    forall i: nat ensures Only(g', shardOf, i)
        == if shardOf(it.key) == i then [it] + Drop(Only(g, shardOf, i), it.key) else Only(g, shardOf, i) {
      OnlyFront(g, shardOf, i, it);
    }
    ReplaceSection(shards, shardOf, g, g', shardOf(it.key), s');
  }

  lemma DropRepresents(shards: seq<Shard>, hash: Str -> nat, g: seq<Item>, key: Str)
    requires Represents(shards, hash, g)
    ensures
      var i := ShardOf(hash)(key);
      Represents(shards[i := Dropped(shards[i], key).0], hash, Drop(g, key))
  {
    var shardOf := ShardOf(hash);
    var j := shardOf(key);
    DroppedOk(shards[j], key);
    DropElems(g, key);
    DropKeepsNewest(g, key);
    DropKeepsDistinct(g, key);
    forall i: nat ensures Only(Drop(g, key), shardOf, i)
        == if i == j then Drop(Only(g, shardOf, i), key) else Only(g, shardOf, i) {
      OnlyDrop(g, shardOf, i, key);
      OnlyElsewhere(g, shardOf, i, key);
    }
    ReplaceSection(shards, shardOf, g, Drop(g, key), j, Dropped(shards[j], key).0);
  }

  // ---------------------------------------------------------------- the oldest entry

  function Back(s: Shard): Item
    requires s.lru != []
  {
    s.lru[|s.lru| - 1]
  }

  /** The scan of EvictOldest from shard `i` on, with its zero-time initial value. */
  function Scan(shards: seq<Shard>, i: nat, best: Option<nat>, oldest: nat): Option<nat>
    requires i <= |shards|
    decreases |shards| - i
  {
    if i == |shards| then best
    else if shards[i].lru != [] && (oldest == 0 || Back(shards[i]).lastAccessed < oldest)
    then Scan(shards, i + 1, Some(i), Back(shards[i]).lastAccessed)
    else Scan(shards, i + 1, best, oldest)
  }

  lemma {:induction false} ScanFrom(shards: seq<Shard>, i: nat, best: Option<nat>, oldest: nat, target: nat)
    requires i <= |shards| && target < |shards| && shards[target].lru != []
    requires forall j :: 0 <= j < |shards| && shards[j].lru != [] ==> Back(shards[j]).lastAccessed > 0
    requires forall j :: 0 <= j < |shards| && j != target && shards[j].lru != [] ==>
               Back(shards[j]).lastAccessed > Back(shards[target]).lastAccessed
    requires if target < i then best == Some(target) && oldest == Back(shards[target]).lastAccessed
             else oldest == 0 || oldest > Back(shards[target]).lastAccessed
    ensures Scan(shards, i, best, oldest) == Some(target)
    decreases |shards| - i
  {
    if i < |shards| {
      if shards[i].lru != [] && (oldest == 0 || Back(shards[i]).lastAccessed < oldest) {
        ScanFrom(shards, i + 1, Some(i), Back(shards[i]).lastAccessed, target);
      } else {
        ScanFrom(shards, i + 1, best, oldest, target);
      }
    }
  }

  lemma {:induction false} ScanEmpty(shards: seq<Shard>, i: nat)
    requires i <= |shards| && forall j :: i <= j < |shards| ==> shards[j].lru == []
    ensures Scan(shards, i, None, 0) == None
    decreases |shards| - i
  {
    if i < |shards| { ScanEmpty(shards, i + 1); }
  }

  /** The globally oldest item is the last of its own shard, and the scan picks that shard. */
  lemma ScanFindsOldest(shards: seq<Shard>, hash: Str -> nat, g: seq<Item>)
    requires Represents(shards, hash, g)
    ensures
      if g == [] then Scan(shards, 0, None, 0) == None
      else
        var last := g[|g| - 1];
        var i := ShardOf(hash)(last.key);
        Scan(shards, 0, None, 0) == Some(i) && shards[i].lru != [] && Back(shards[i]) == last
  {
    var shardOf := ShardOf(hash);
    if g == [] {
      ScanEmpty(shards, 0);
    } else {
      var last := g[|g| - 1];
      var t := shardOf(last.key);
      OnlyLast(g, shardOf, t);
      forall j | 0 <= j < SHARD_COUNT && shards[j].lru != []
        ensures Back(shards[j]).lastAccessed > 0
        ensures j != t ==> Back(shards[j]).lastAccessed > last.lastAccessed
      {
        OnlyElems(g, shardOf, j);
        assert Back(shards[j]) in Only(g, shardOf, j);
      }
      ScanFrom(shards, 0, None, 0, t);
    }
  }

  lemma {:induction false} DropLast(g: seq<Item>)
    requires g != [] && DistinctKeys(g)
    ensures Drop(g, g[|g| - 1].key) == g[..|g| - 1]
  {
    if |g| == 1 {
      assert g[1..] == [];
    } else {
      DropLast(g[1..]);
      assert g[1..][|g| - 2] == g[|g| - 1];
      assert g[..|g| - 1] == [g[0]] + g[1..][..|g| - 2];
    }
  }

  // ---------------------------------------------------------------- whole runs

  datatype Op =
    | Touch(key: Str, now: nat)
    | Insert(it: Item)
    | Remove(key: Str)
    | EvictOldest

  /** The operations on one unsharded list; an eviction also reports its victim. */
  function Single(g: seq<Item>, op: Op): (seq<Item>, Option<Item>) {
    match op
    case Touch(key, now) => (TouchIn(g, key, now), None)
    case Insert(it) => ([it] + Drop(g, it.key), None)
    case Remove(key) => (Drop(g, key), None)
    case EvictOldest => if g == [] then (g, None) else (g[..|g| - 1], Some(g[|g| - 1]))
  }

  function Find(g: seq<Item>, key: Str): Option<Item> {
    if g == [] then None else if g[0].key == key then Some(g[0]) else Find(g[1..], key)
  }

  function TouchIn(g: seq<Item>, key: Str, now: nat): seq<Item> {
    var found := Find(g, key);
    if found.None? then g else [found.value.(lastAccessed := now)] + Drop(g, key)
  }

  lemma {:induction false} FindElem(g: seq<Item>, key: Str)
    ensures var f := Find(g, key); f.Some? ==> f.value in g && f.value.key == key
    ensures Find(g, key).None? ==> forall it :: it in g ==> it.key != key
  {
    if g != [] { FindElem(g[1..], key); }
  }

  lemma {:induction false} DropAt(g: seq<Item>, i: nat)
    requires DistinctKeys(g) && i < |g|
    ensures Drop(g, g[i].key) == g[..i] + g[i + 1..]
    decreases i
  {
    if i == 0 {
      assert forall it :: it in g[1..] ==> it.key != g[0].key;
      DropAbsent(g[1..], g[0].key);
      assert g[..0] + g[1..] == g[1..];
    } else {
      DropAt(g[1..], i - 1);
      assert g[1..][i - 1] == g[i];
      assert g[..i] == [g[0]] + g[1..][..i - 1] && g[i + 1..] == g[1..][i..];
    }
  }

  lemma {:induction false} FindAt(g: seq<Item>, i: nat)
    requires DistinctKeys(g) && i < |g|
    ensures Find(g, g[i].key) == Some(g[i])
    decreases i
  {
    if i > 0 {
      assert g[1..][i - 1] == g[i];
      FindAt(g[1..], i - 1);
    }
  }

  /** The i-th of a list, stamped and moved to the front, the others staying in order. */
  function Refreshed(g: seq<Item>, i: nat, now: nat): seq<Item>
    requires i < |g|
  {
    [Item(g[i].key, g[i].obj, g[i].size, now)] + g[..i] + g[i + 1..]
  }

  /** A hit makes its entry the most recent, changes nothing else about it and keeps the others in
      order; a miss changes nothing. */
  lemma TouchRefreshes(g: seq<Item>, key: Str, now: nat)
    requires DistinctKeys(g)
    ensures forall i :: 0 <= i < |g| && g[i].key == key ==> TouchIn(g, key, now) == Refreshed(g, i, now)
    ensures (forall it :: it in g ==> it.key != key) ==> TouchIn(g, key, now) == g
  {
    FindElem(g, key);
    forall i | 0 <= i < |g| && g[i].key == key ensures TouchIn(g, key, now) == Refreshed(g, i, now) {
      FindAt(g, i);
      DropAt(g, i);
      assert [Item(key, g[i].obj, g[i].size, now)] + (g[..i] + g[i + 1..]) == Refreshed(g, i, now);
    }
  }

  /** The same of one shard: its list is refreshed, and its map changes for that key only. */
  lemma TouchRefreshesShard(s: Shard, i: nat, now: nat)
    requires ShardOk(s) && i < |s.lru|
    ensures s.lru[i].key in s.items
    ensures
      var s' := Touched(s, s.lru[i].key, now);
      && s'.lru == Refreshed(s.lru, i, now) && s'.bytes == s.bytes
      && s'.items == s.items[s.lru[i].key := Item(s.lru[i].key, s.lru[i].obj, s.lru[i].size, now)]
  {
    assert s.lru[i] in s.lru;
    DropAt(s.lru, i);
    var it := Item(s.lru[i].key, s.lru[i].obj, s.lru[i].size, now);
    assert [it] + (s.lru[..i] + s.lru[i + 1..]) == Refreshed(s.lru, i, now);
  }

  /** A shard holds exactly what the one list holds for its keys. */
  lemma FindInShard(shards: seq<Shard>, hash: Str -> nat, g: seq<Item>, key: Str)
    requires Represents(shards, hash, g)
    ensures
      var s := shards[ShardOf(hash)(key)];
      if key in s.items then Find(g, key) == Some(s.items[key]) else Find(g, key) == None
  {
    var i := ShardOf(hash)(key);
    OnlyElems(g, ShardOf(hash), i);
    FindElem(g, key);
    var f := Find(g, key);
    assert f.Some? ==> f.value in shards[i].lru;
    assert forall k :: k in shards[i].items ==> shards[i].items[k] in g;
  }

  /** The same operations on the shards. */
  function Sharded(shards: seq<Shard>, hash: Str -> nat, op: Op): (seq<Shard>, Option<Item>)
    requires |shards| == SHARD_COUNT
  {
    match op
    case Touch(key, now) =>
      var i := ShardOf(hash)(key);
      (if key in shards[i].items then shards[i := Touched(shards[i], key, now)] else shards, None)
    case Insert(it) =>
      var i := ShardOf(hash)(it.key);
      (shards[i := Inserted(shards[i], it).0], None)
    case Remove(key) =>
      var i := ShardOf(hash)(key);
      (shards[i := Dropped(shards[i], key).0], None)
    case EvictOldest =>
      var best := Scan(shards, 0, None, 0);
      if best.Some? && best.value < |shards| && shards[best.value].lru != [] then
        var victim := Back(shards[best.value]);
        (shards[best.value := Dropped(shards[best.value], victim.key).0], Some(victim))
      else (shards, None)
  }

  /** Every operation is stamped later than all before it. */
  ghost predicate ClockOk(g: seq<Item>, op: Op) {
    match op
    case Touch(_, now) => Before(g, now)
    case Insert(it) => Before(g, it.lastAccessed)
    case _ => true
  }

  /** Each step of the shards is the same step of the one list, with the same victim. */
  lemma StepSimulates(shards: seq<Shard>, hash: Str -> nat, g: seq<Item>, op: Op)
    requires Represents(shards, hash, g) && ClockOk(g, op)
    ensures Represents(Sharded(shards, hash, op).0, hash, Single(g, op).0)
    ensures Sharded(shards, hash, op).1 == Single(g, op).1
  {
    match op {
      case Touch(key, now) =>
        var s := shards[ShardOf(hash)(key)];
        FindInShard(shards, hash, g, key);
        if key in s.items {
          SizeInShard(s, key);
          FrontOk(s, s.items[key].(lastAccessed := now), s.bytes);
          FrontRepresents(shards, hash, g, s.items[key].(lastAccessed := now), Touched(s, key, now));
        }
      case Insert(it) =>
        var s := shards[ShardOf(hash)(it.key)];
        SizeInShard(s, it.key);
        FrontOk(s, it, s.bytes + it.size - SizeOf(s.lru, it.key));
        FrontRepresents(shards, hash, g, it, Inserted(s, it).0);
      case Remove(key) =>
        DropRepresents(shards, hash, g, key);
      case EvictOldest =>
        ScanFindsOldest(shards, hash, g);
        if g != [] {
          DropLast(g);
          DropRepresents(shards, hash, g, g[|g| - 1].key);
        }
    }
  }

  /** A used entry is not the next to go while there is another: the shards evict the oldest of the
      rest. This is what makes the cache LRU and not FIFO. */
  lemma UsedIsSpared(shards: seq<Shard>, hash: Str -> nat, g: seq<Item>, i: nat, now: nat)
    requires Represents(shards, hash, g) && Before(g, now) && i < |g| && |g| >= 2
    ensures
      var touched := Sharded(shards, hash, Touch(g[i].key, now)).0;
      && |touched| == SHARD_COUNT
      && Sharded(touched, hash, EvictOldest).1 == Some(if i == |g| - 1 then g[|g| - 2] else g[|g| - 1])
  {
    UseRefreshes(shards, hash, g, i, now);
    RefreshedLast(g, i, now);
    VictimIsLast(Sharded(shards, hash, Touch(g[i].key, now)).0, hash, Refreshed(g, i, now));
  }

  lemma UseRefreshes(shards: seq<Shard>, hash: Str -> nat, g: seq<Item>, i: nat, now: nat)
    requires Represents(shards, hash, g) && Before(g, now) && i < |g|
    ensures Represents(Sharded(shards, hash, Touch(g[i].key, now)).0, hash, Refreshed(g, i, now))
  {
    StepSimulates(shards, hash, g, Touch(g[i].key, now));
    TouchRefreshes(g, g[i].key, now);
  }

  lemma RefreshedLast(g: seq<Item>, i: nat, now: nat)
    requires i < |g| && |g| >= 2
    ensures
      var g' := Refreshed(g, i, now);
      |g'| == |g| && g'[|g'| - 1] == if i == |g| - 1 then g[|g| - 2] else g[|g| - 1]
  {
  }

  lemma VictimIsLast(shards: seq<Shard>, hash: Str -> nat, g: seq<Item>)
    requires Represents(shards, hash, g) && g != []
    ensures |shards| == SHARD_COUNT && Sharded(shards, hash, EvictOldest).1 == Some(g[|g| - 1])
  {
    StepSimulates(shards, hash, g, EvictOldest);
  }

  ghost predicate ClockRun(g: seq<Item>, ops: seq<Op>)
    decreases |ops|
  {
    ops != [] ==> ClockOk(g, ops[0]) && ClockRun(Single(g, ops[0]).0, ops[1..])
  }

  function SingleVictims(g: seq<Item>, ops: seq<Op>): seq<Option<Item>>
    decreases |ops|
  {
    if ops == [] then [] else [Single(g, ops[0]).1] + SingleVictims(Single(g, ops[0]).0, ops[1..])
  }

  function ShardedVictims(shards: seq<Shard>, hash: Str -> nat, ops: seq<Op>): seq<Option<Item>>
    requires |shards| == SHARD_COUNT
    decreases |ops|
  {
    if ops == [] then []
    else [Sharded(shards, hash, ops[0]).1] + ShardedVictims(Sharded(shards, hash, ops[0]).0, hash, ops[1..])
  }

  /** Whatever the hash, a run over the shards evicts the same items in the same order as one list. */
  lemma {:induction false} RunEvictsAsOneList(shards: seq<Shard>, hash: Str -> nat, g: seq<Item>, ops: seq<Op>)
    requires Represents(shards, hash, g) && ClockRun(g, ops)
    ensures ShardedVictims(shards, hash, ops) == SingleVictims(g, ops)
    decreases |ops|
  {
    if ops != [] {
      StepSimulates(shards, hash, g, ops[0]);
      RunEvictsAsOneList(Sharded(shards, hash, ops[0]).0, hash, Single(g, ops[0]).0, ops[1..]);
    }
  }
}
