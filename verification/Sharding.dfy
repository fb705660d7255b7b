/** The consensus-free sharding ring: sorted members, owner = sorted[hash mod count]. */
module Sharding {
  import opened Base
  import opened Order

  // ---------------------------------------------------------------- partition keys

  const SLASH: byte := 0x2F

  function TrimLeft(s: Str): Str {
    if s != [] && s[0] == SLASH then TrimLeft(s[1..]) else s
  }

  function TrimRight(s: Str): Str {
    if s != [] && s[|s| - 1] == SLASH then TrimRight(s[..|s| - 1]) else s
  }

  /** `strings.Split(s, "/")`. */
  function Split(s: Str): (parts: seq<Str>)
    ensures |parts| == Slashes(s) + 1
  {
    if s == [] then [[]]
    else if s[0] == SLASH then [[]] + Split(s[1..])
    else
      var rest := Split(s[1..]);
      [[s[0]] + rest[0]] + rest[1..]
  }

  function Slashes(s: Str): nat {
    if s == [] then 0 else (if s[0] == SLASH then 1 else 0) + Slashes(s[1..])
  }

  /** `strings.Join(parts, "/")`. */
  function Join(parts: seq<Str>): Str {
    if parts == [] then []
    else if |parts| == 1 then parts[0]
    else parts[0] + [SLASH] + Join(parts[1..])
  }

  function PartitionKey(key: Str, depth: int): Str {
    Cut(TrimRight(TrimLeft(key)), depth)
  }

  /** The first `depth` components. */
  function Cut(cleaned: Str, depth: int): Str {
    if depth <= 0 then cleaned
    else
      var parts := Split(cleaned);
      if |parts| <= depth then cleaned else Join(parts[..depth])
  }

  lemma {:induction false} SplitAppend(p: Str, r: Str)
    ensures Split(p + [SLASH] + r) == Split(p) + Split(r)
  {
    var s := p + [SLASH] + r;
    if p == [] {
      assert s[1..] == r;
    } else {
      assert s[1..] == p[1..] + [SLASH] + r;
      SplitAppend(p[1..], r);
    }
  }

  lemma {:induction false} JoinSplit(p: Str)
    ensures Join(Split(p)) == p
  {
    if p != [] {
      JoinSplit(p[1..]);
      var rest := Split(p[1..]);
      if p[0] == SLASH {
        assert ([[]] + rest)[1..] == rest;
        assert p == [] + [SLASH] + p[1..];
      } else {
        var all := [[p[0]] + rest[0]] + rest[1..];
        assert all[1..] == rest[1..];
        assert Join(all) == [p[0]] + Join(rest);
      }
    }
  }

  /** Trimming a key below a directory never reaches back into the directory's name. */
  lemma {:induction false} TrimBelow(dir: Str, rest: Str)
    requires dir != [] && dir[|dir| - 1] != SLASH
    ensures TrimRight(dir + [SLASH] + rest) == dir
         || exists r :: TrimRight(dir + [SLASH] + rest) == dir + [SLASH] + r
    decreases |rest|
  {
    var s := dir + [SLASH] + rest;
    if rest == [] {
      assert s[..|s| - 1] == dir;
    } else if s[|s| - 1] == SLASH {
      assert s[..|s| - 1] == dir + [SLASH] + rest[..|rest| - 1];
      TrimBelow(dir, rest[..|rest| - 1]);
    } else {
      assert TrimRight(s) == dir + [SLASH] + rest;
    }
  }

  lemma {:induction false} TrimLeading(lead: Str, s: Str)
    requires forall c :: c in lead ==> c == SLASH
    ensures TrimLeft(lead + s) == TrimLeft(s)
  {
    if lead == [] {
      assert lead + s == s;
    } else {
      assert lead[0] in lead && forall c :: c in lead[1..] ==> c in lead;
      assert (lead + s)[0] == SLASH && (lead + s)[1..] == lead[1..] + s;
      TrimLeading(lead[1..], s);
    }
  }

  /** What is left of a key below a directory once it is split and joined again. */
  lemma FirstPartsAreDir(dir: Str, r: Str, depth: nat)
    requires Slashes(dir) + 1 == depth
    ensures
      var parts := Split(dir + [SLASH] + r);
      |parts| > depth && Join(parts[..depth]) == dir
  {
    SplitAppend(dir, r);
    assert Split(dir + [SLASH] + r)[..depth] == Split(dir);
    JoinSplit(dir);
  }

  lemma LeadTrimmed(lead: Str, s: Str)
    requires s != [] && s[0] != SLASH && forall c :: c in lead ==> c == SLASH
    ensures TrimLeft(lead + s) == s
  {
    TrimLeading(lead, s);
  }

  lemma DirectoryItself(dir: Str, depth: nat)
    requires dir != [] && dir[|dir| - 1] != SLASH && Slashes(dir) + 1 == depth
    ensures Cut(TrimRight(dir), depth) == dir
  {
  }

  lemma BelowDirectory(dir: Str, rest: Str, depth: nat)
    requires dir != [] && dir[|dir| - 1] != SLASH && Slashes(dir) + 1 == depth
    ensures Cut(TrimRight(dir + [SLASH] + rest), depth) == dir
  {
    TrimBelow(dir, rest);
    var cleaned := TrimRight(dir + [SLASH] + rest);
    if cleaned != dir {
      var r :| cleaned == dir + [SLASH] + r;
      FirstPartsAreDir(dir, r, depth);
    }
  }

  /** A directory with `depth` components and everything below it lands in that directory's
      partition, however many slashes lead the key. */
  lemma DirectoryIsOnePartition(lead: Str, dir: Str, rest: Str, depth: nat)
    requires forall c :: c in lead ==> c == SLASH
    requires dir != [] && dir[0] != SLASH && dir[|dir| - 1] != SLASH
    requires Slashes(dir) + 1 == depth
    ensures PartitionKey(lead + (dir + [SLASH] + rest), depth) == dir == PartitionKey(lead + dir, depth)
  {
    var below := dir + [SLASH] + rest;
    assert below[0] == dir[0];
    LeadTrimmed(lead, dir);
    LeadTrimmed(lead, below);
    BelowDirectory(dir, rest, depth);
    DirectoryItself(dir, depth);
  }

  lemma {:induction false} TrimTrailing(s: Str, trail: Str)
    requires forall c :: c in trail ==> c == SLASH
    ensures TrimRight(s + trail) == TrimRight(s)
    decreases |trail|
  {
    if trail == [] {
      assert s + trail == s;
    } else {
      var last := |trail| - 1;
      assert trail[last] in trail && forall c :: c in trail[..last] ==> c in trail;
      assert (s + trail)[|s + trail| - 1] == SLASH && (s + trail)[..|s + trail| - 1] == s + trail[..last];
      TrimTrailing(s, trail[..last]);
    }
  }

  /** A key with its slashes on either side: what `strings.Trim` leaves is the part in between. */
  lemma TrimmedIs(lead: Str, core: Str, trail: Str)
    requires forall c :: c in lead + trail ==> c == SLASH
    requires core != [] ==> core[0] != SLASH && core[|core| - 1] != SLASH
    ensures TrimRight(TrimLeft(lead + (core + trail))) == core
  {
    assert forall c :: c in lead ==> c in lead + trail;
    assert forall c :: c in trail ==> c in lead + trail;
    TrimLeading(lead, core + trail);
    if core == [] {
      assert core + trail == trail + [];
      TrimLeading(trail, []);
    } else {
      assert (core + trail)[0] == core[0];
      TrimTrailing(core, trail);
    }
  }

  lemma {:induction false} SlashesCounted(s: Str)
    ensures Slashes(s) == multiset(s)[SLASH]
  {
    if s != [] {
      SlashesCounted(s[1..]);
      assert s == [s[0]] + s[1..];
    }
  }

  /** With no depth, or no more components than the depth, the whole trimmed key is the partition. */
  lemma ShallowKeyIsItsPartition(lead: Str, core: Str, trail: Str, depth: int)
    requires forall c :: c in lead + trail ==> c == SLASH
    requires core != [] ==> core[0] != SLASH && core[|core| - 1] != SLASH
    requires depth <= 0 || multiset(core)[SLASH] + 1 <= depth
    ensures PartitionKey(lead + (core + trail), depth) == core
  {
    TrimmedIs(lead, core, trail);
    SlashesCounted(core);
  }

  /** With more components than the depth it is everything before the slash after the `depth`-th. */
  lemma DeepKeyIsCut(lead: Str, dir: Str, rest: Str, trail: Str, depth: nat)
    requires forall c :: c in lead + trail ==> c == SLASH
    requires rest != [] && rest[|rest| - 1] != SLASH && (dir + [SLASH])[0] != SLASH
    requires multiset(dir)[SLASH] + 1 == depth
    ensures PartitionKey(lead + (dir + [SLASH] + rest + trail), depth) == dir
  {
    TrimmedIs(lead, dir + [SLASH] + rest, trail);
    SlashesCounted(dir);
    FirstPartsAreDir(dir, rest, depth);
  }

  // ---------------------------------------------------------------- membership

  datatype Change = Enter(addr: Str) | Leave(addr: Str) | Replace(addrs: seq<Str>)

  /** What a ring is to its users: who is in it, and how often that changed. */
  datatype View = View(members: set<Str>, generation: nat)

  /** The membership a call asks for. */
  ghost function Target(members: set<Str>, c: Change): set<Str> {
    match c
    case Enter(a) => members + {a}
    case Leave(a) => members - {a}
    case Replace(addrs) => set a | a in addrs && a != []
  }

  ghost function Changed(v: View, c: Change): View {
    var t := Target(v.members, c);
    View(t, v.generation + if t == v.members then 0 else 1)
  }

  ghost function Run(v: View, cs: seq<Change>): View {
    if cs == [] then v else Changed(Run(v, cs[..|cs| - 1]), cs[|cs| - 1])
  }

  /** The owner of a key; the empty string when there are no nodes. */
  function OwnerAmong(nodes: seq<Str>, place: Str -> nat, key: Str): Str {
    if |nodes| == 0 then [] else nodes[place(key) % |nodes|]
  }

  ghost function Owner(members: set<Str>, place: Str -> nat, key: Str): Str {
    OwnerAmong(SortedKeys(members), place, key)
  }

  /** The i-th member in sorted order. */
  ghost function SortedAt(members: set<Str>, i: nat): (a: Str)
    requires i < |members|
    ensures a in members
    ensures |set b | b in members && Less(b, a)| == i
  {
    SortedKeysLength(members);
    RankInListing(members, i);
    SortedKeys(members)[i]
  }

  lemma BelowIsFront(m: seq<Str>, i: nat, b: Str)
    requires Ascending(m) && i < |m|
    ensures b in m && Less(b, m[i]) <==> b in m[..i]
  {
    if b in m && Less(b, m[i]) {
      var j :| 0 <= j < |m| && m[j] == b;
      Trichotomy(b, m[i]);
      assert j < i;
    }
  }

  /** The i-th of a sorted listing has exactly i members below it. */
  lemma RankInListing(members: set<Str>, i: nat)
    requires i < |SortedKeys(members)|
    ensures SortedKeys(members)[i] in members
    ensures |set b | b in members && Less(b, SortedKeys(members)[i])| == i
  {
    var m := SortedKeys(members);
    assert m[i] in Elems(m);
    forall b ensures (b in members && Less(b, m[i])) <==> b in Elems(m[..i]) {
      assert b in members <==> b in Elems(m);
      BelowIsFront(m, i, b);
    }
    assert (set b | b in members && Less(b, m[i])) == Elems(m[..i]);
    AscendingNoDup(m[..i]);
    NoDupCard(m[..i]);
  }

  /** The owner is always a member; "no owner" means "no members" as long as no address is empty. */
  lemma OwnerIsMember(members: set<Str>, place: Str -> nat, key: Str)
    ensures members != {} ==> Owner(members, place, key) in members
    ensures [] !in members ==> (Owner(members, place, key) == [] <==> members == {})
  {
    var nodes := SortedKeys(members);
    if nodes == [] {
      assert Elems(nodes) == {};
    } else {
      assert nodes[place(key) % |nodes|] in Elems(nodes);
    }
  }

  /** How many of the calls in `cs` changed the membership. */
  ghost function RealChanges(members: set<Str>, cs: seq<Change>): nat
    decreases |cs|
  {
    if cs == [] then 0
    else
      var t := Target(members, cs[0]);
      (if t == members then 0 else 1) + RealChanges(t, cs[1..])
  }

  lemma {:induction false} RunFront(v: View, cs: seq<Change>)
    requires cs != []
    ensures Run(v, cs) == Run(Changed(v, cs[0]), cs[1..])
  {
    var last := |cs| - 1;
    if last > 0 {
      RunFront(v, cs[..last]);
      assert cs[..last][1..] == cs[1..][..last - 1];
      assert cs[1..][last - 1] == cs[last];
    } else {
      assert cs[..0] == [];
      assert Run(v, cs[..0]) == v;
    }
  }

  /** The generation counts exactly the calls that changed the membership. */
  lemma {:induction false} GenerationCountsChanges(v: View, cs: seq<Change>)
    ensures Run(v, cs).generation == v.generation + RealChanges(v.members, cs)
    decreases |cs|
  {
    if cs != [] {
      RunFront(v, cs);
      GenerationCountsChanges(Changed(v, cs[0]), cs[1..]);
    }
  }

  /** The physical ring. `hash` stands for FNV-1a; any fixed function will do. */
  class Ring {
    var nodes: seq<Str>
    var nodeSet: set<Str>
    var generation: nat
    const hash: Str -> nat
    const partitionDepth: int

    ghost predicate Valid()
      reads this
    {
      Ascending(nodes) && nodeSet == Elems(nodes)
    }

    ghost function Current(): View
      reads this
    {
      View(nodeSet, generation)
    }

    constructor (hash: Str -> nat, partitionDepth: int)
      ensures Valid() && Current() == View({}, 0)
      ensures this.hash == hash && this.partitionDepth == partitionDepth
    {
      nodes, nodeSet, generation := [], {}, 0;
      this.hash, this.partitionDepth := hash, partitionDepth;
    }

    function Place(key: Str): nat {
      hash(PartitionKey(key, partitionDepth))
    }

    method AddNode(addr: Str)
      requires Valid()
      modifies this
      ensures Valid() && Current() == Changed(old(Current()), Enter(addr))
      ensures nodeSet == old(nodeSet) + {addr}
      ensures generation == old(generation) + if addr in old(nodeSet) then 0 else 1
    {
      if addr in nodeSet {
        assert nodeSet + {addr} == nodeSet;
        return;
      }
      AscendingNoDup(nodes);
      nodeSet := nodeSet + {addr};
      nodes := Sort(nodes + [addr]);
      generation := generation + 1;
    }

    method RemoveNode(addr: Str)
      requires Valid()
      modifies this
      ensures Valid() && Current() == Changed(old(Current()), Leave(addr))
      ensures nodeSet == old(nodeSet) - {addr}
      ensures generation == old(generation) + if addr in old(nodeSet) then 1 else 0
    {
      if addr !in nodeSet {
        assert nodeSet - {addr} == nodeSet;
        return;
      }
      nodeSet := nodeSet - {addr};
      var newNodes := [];
      for i := 0 to |nodes|
        invariant Ascending(newNodes)
        invariant Elems(newNodes) == Elems(nodes[..i]) - {addr}
        invariant i < |nodes| ==> forall x :: x in newNodes ==> Less(x, nodes[i])
      {
        assert Elems(nodes[..i + 1]) == Elems(nodes[..i]) + {nodes[i]};
        if nodes[i] != addr {
          assert Elems(newNodes + [nodes[i]]) == Elems(newNodes) + {nodes[i]};
          newNodes := newNodes + [nodes[i]];
        }
        if i + 1 < |nodes| {
          forall x | x in newNodes ensures Less(x, nodes[i + 1]) {
            if x != nodes[i] { Transitive(x, nodes[i], nodes[i + 1]); }
          }
        }
      }
      assert nodes[..|nodes|] == nodes;
      nodes := newNodes;
      generation := generation + 1;
    }

    method SetNodes(addrs: seq<Str>)
      requires Valid()
      modifies this
      ensures Valid() && Current() == Changed(old(Current()), Replace(addrs))
      ensures forall a :: a in nodeSet <==> a in addrs && a != []
      ensures generation == old(generation) + if nodeSet == old(nodeSet) then 0 else 1
    {
      var dedup: set<Str> := {};
      var listed: seq<Str> := [];
      for i := 0 to |addrs|
        invariant dedup == set a | a in addrs[..i] && a != []
        invariant NoDup(listed) && Elems(listed) == dedup
      {
        assert addrs[..i + 1] == addrs[..i] + [addrs[i]];
        if addrs[i] != [] && addrs[i] !in dedup {
          dedup := dedup + {addrs[i]};
          listed := listed + [addrs[i]];
        }
      }
      assert addrs[..|addrs|] == addrs;
      var newNodes := Sort(listed);
      if |newNodes| == |nodes| {
        var i := 0;
        while i < |newNodes| && newNodes[i] == nodes[i]
          invariant 0 <= i <= |newNodes|
          invariant newNodes[..i] == nodes[..i]
        {
          i := i + 1;
        }
        if i == |newNodes| {
          assert newNodes == newNodes[..i] == nodes[..i] == nodes;
          return;
        }
        assert newNodes != nodes;
      }
      if dedup == nodeSet {
        AscendingUnique(newNodes, nodes);
        assert false;
      }
      nodes, nodeSet := newNodes, dedup;
      generation := generation + 1;
    }

    method ShardFor(key: Str) returns (shard: int)
      requires Valid()
      ensures if nodes == [] then shard == -1
              else 0 <= shard < |nodes| && nodes[shard] == Owner(nodeSet, Place, key)
      ensures nodes != [] ==> shard == hash(PartitionKey(key, partitionDepth)) % |nodes|
    {
      if |nodes| == 0 { return -1; }
      AscendingUnique(nodes, SortedKeys(nodeSet));
      shard := Place(key) % |nodes|;
    }

    method GetNode(key: Str) returns (addr: Str)
      requires Valid()
      ensures addr == Owner(nodeSet, Place, key)
      ensures addr == if nodes == [] then [] else nodes[hash(PartitionKey(key, partitionDepth)) % |nodes|]
    {
      AscendingUnique(nodes, SortedKeys(nodeSet));
      if |nodes| == 0 { return []; }
      addr := nodes[Place(key) % |nodes|];
    }

    lemma ListLength()
      requires Valid()
      ensures nodes == SortedKeys(nodeSet) && |nodes| == |nodeSet|
    {
      AscendingUnique(nodes, SortedKeys(nodeSet));
      SortedKeysLength(nodeSet);
    }

    /** All keys below a directory of `partitionDepth` components have one owner and one shard, the one
        that the hash of the directory picks from the sorted members. */
    lemma DirectoryHasOneOwner(lead: Str, dir: Str, rest: Str)
      requires Valid() && nodeSet != {}
      requires forall c :: c in lead ==> c == SLASH
      requires dir != [] && dir[0] != SLASH && dir[|dir| - 1] != SLASH
      requires multiset(dir)[SLASH] + 1 == partitionDepth
      ensures Owner(nodeSet, Place, lead + (dir + [SLASH] + rest)) == SortedAt(nodeSet, hash(dir) % |nodeSet|)
      ensures Place(lead + (dir + [SLASH] + rest)) % |nodeSet| == hash(dir) % |nodeSet|
    {
      ListLength();
      SlashesCounted(dir);
      DirectoryIsOnePartition(lead, dir, rest, partitionDepth);
    }

    /** A key with fewer components, or any key when there is no depth, is placed by the hash of the key
        without its outer slashes. */
    lemma ShallowKeyHasOwnOwner(lead: Str, core: Str, trail: Str)
      requires Valid() && nodeSet != {}
      requires forall c :: c in lead + trail ==> c == SLASH
      requires core != [] ==> core[0] != SLASH && core[|core| - 1] != SLASH
      requires partitionDepth <= 0 || multiset(core)[SLASH] + 1 <= partitionDepth
      ensures Owner(nodeSet, Place, lead + (core + trail)) == SortedAt(nodeSet, hash(core) % |nodeSet|)
    {
      ListLength();
      ShallowKeyIsItsPartition(lead, core, trail, partitionDepth);
    }

    /** Two keys below one directory go to the same node. */
    lemma SameDirectorySameOwner(lead: Str, lead': Str, dir: Str, rest: Str, rest': Str)
      requires Valid()
      requires forall c :: c in lead || c in lead' ==> c == SLASH
      requires dir != [] && dir[0] != SLASH && dir[|dir| - 1] != SLASH
      requires multiset(dir)[SLASH] + 1 == partitionDepth
      ensures Owner(nodeSet, Place, lead + (dir + [SLASH] + rest)) == Owner(nodeSet, Place, lead' + (dir + [SLASH] + rest'))
    {
      ListLength();
      if nodeSet != {} {
        DirectoryHasOneOwner(lead, dir, rest);
        DirectoryHasOneOwner(lead', dir, rest');
      }
    }

    /** `sort.SearchStrings` (a binary search for the first node not below `addr`) and its test. */
    method NodeIndex(addr: Str) returns (index: int)
      requires Valid()
      ensures if addr in nodeSet then 0 <= index < |nodes| && nodes[index] == addr else index == -1
    {
      var lo, hi := 0, |nodes|;
      while lo < hi
        invariant 0 <= lo <= hi <= |nodes|
        invariant forall i :: 0 <= i < lo ==> Less(nodes[i], addr)
        invariant forall i :: hi <= i < |nodes| ==> !Less(nodes[i], addr)
      {
        var mid := (lo + hi) / 2;
        if Less(nodes[mid], addr) {
          BelowToo(nodes, mid, addr);
          lo := mid + 1;
        } else {
          AboveToo(nodes, mid, addr);
          hi := mid;
        }
      }
      if lo < |nodes| && nodes[lo] == addr {
        return lo;
      }
      Trichotomy(addr, addr);
      assert forall i :: lo < i < |nodes| ==> Less(nodes[lo], nodes[i]);
      return -1;
    }

    /** A key's shard number is the index of the node that owns it. */
    method IndexOfOwner(key: Str) returns (index: int, shard: int)
      requires Valid()
      ensures index == shard
    {
      var owner := GetNode(key);
      index := NodeIndex(owner);
      shard := ShardFor(key);
      OwnerIsMember(nodeSet, Place, key);
      AscendingNoDup(nodes);
    }
  }

  lemma BelowToo(nodes: seq<Str>, mid: nat, addr: Str)
    requires mid < |nodes| && Ascending(nodes) && Less(nodes[mid], addr)
    ensures forall i :: 0 <= i <= mid ==> Less(nodes[i], addr)
  {
    forall i | 0 <= i < mid ensures Less(nodes[i], addr) {
      Transitive(nodes[i], nodes[mid], addr);
    }
  }

  lemma AboveToo(nodes: seq<Str>, mid: nat, addr: Str)
    requires mid < |nodes| && Ascending(nodes) && !Less(nodes[mid], addr)
    ensures forall i :: mid <= i < |nodes| ==> !Less(nodes[i], addr)
  {
    forall i | mid < i < |nodes| ensures !Less(nodes[i], addr) {
      if Less(nodes[i], addr) { Transitive(nodes[mid], nodes[i], addr); }
    }
  }

  /** Two nodes that saw different call histories but agree on who is a member hold the same sorted
      list and name the same owner for every key. */
  lemma SameMembersSameOwners(a: Ring, b: Ring, key: Str)
    requires a.Valid() && b.Valid() && a.nodeSet == b.nodeSet
    requires a.hash == b.hash && a.partitionDepth == b.partitionDepth
    ensures a.nodes == b.nodes
    ensures OwnerAmong(a.nodes, a.Place, key) == OwnerAmong(b.nodes, b.Place, key)
  {
    AscendingUnique(a.nodes, b.nodes);
    assert a.Place(key) == b.Place(key);
  }
}
