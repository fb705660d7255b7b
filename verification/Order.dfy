/** Go's string order and `sort.Strings`. */
module Order {
  import opened Base

  /** Byte-wise lexicographic `<` on strings. */
  predicate Less(a: Str, b: Str) {
    if b == [] then false
    else if a == [] then true
    else a[0] < b[0] || (a[0] == b[0] && Less(a[1..], b[1..]))
  }

  predicate AtMost(a: Str, b: Str) {
    a == b || Less(a, b)
  }

  lemma {:induction false} Trichotomy(a: Str, b: Str)
    ensures Less(a, b) || a == b || Less(b, a)
    ensures !(Less(a, b) && Less(b, a))
    ensures !Less(a, a)
  {
    if a != [] && b != [] {
      Trichotomy(a[1..], b[1..]);
      assert a == [a[0]] + a[1..] && b == [b[0]] + b[1..];
    }
    if a != [] {
      Trichotomy(a[1..], a[1..]);
    }
  }

  lemma {:induction false} Transitive(a: Str, b: Str, c: Str)
    requires Less(a, b) && Less(b, c)
    ensures Less(a, c)
  {
    if a != [] && b != [] && c != [] && a[0] == b[0] == c[0] {
      Transitive(a[1..], b[1..], c[1..]);
    }
  }

  ghost predicate Ascending(s: seq<Str>) {
    forall i, j :: 0 <= i < j < |s| ==> Less(s[i], s[j])
  }

  lemma AscendingNoDup(s: seq<Str>)
    requires Ascending(s)
    ensures NoDup(s)
  {
    forall i, j | 0 <= i < j < |s| ensures s[i] != s[j] {
      Trichotomy(s[i], s[j]);
    }
  }

  /** A set of strings has only one ascending listing. */
  lemma {:induction false} AscendingUnique(a: seq<Str>, b: seq<Str>)
    requires Ascending(a) && Ascending(b)
    requires Elems(a) == Elems(b)
    ensures a == b
    decreases |a|
  {
    if a == [] {
      assert forall i :: 0 <= i < |b| ==> b[i] in Elems(b);
      assert b == [];
    } else {
      assert a[0] in Elems(b);
      assert b != [];
      assert b[0] in Elems(a);
      HeadIsLeast(a, b[0]);
      HeadIsLeast(b, a[0]);
      Trichotomy(a[0], b[0]);
      TailElems(a);
      TailElems(b);
      AscendingUnique(a[1..], b[1..]);
      assert a == [a[0]] + a[1..] && b == [b[0]] + b[1..];
    }
  }

  lemma HeadIsLeast(s: seq<Str>, x: Str)
    requires Ascending(s) && x in s
    ensures AtMost(s[0], x)
  {
  }

  lemma TailElems(s: seq<Str>)
    requires Ascending(s) && s != []
    ensures Ascending(s[1..]) && Elems(s[1..]) == Elems(s) - {s[0]}
  {
    AscendingNoDup(s);
    forall x | x in Elems(s) - {s[0]} ensures x in s[1..] {
      var i :| 0 <= i < |s| && s[i] == x;
      assert s[1..][i - 1] == x;
    }
  }

  /** Insertion of a string in an ascending list. */
  function Insert(x: Str, s: seq<Str>): (r: seq<Str>)
    ensures Elems(r) == Elems(s) + {x}
    ensures |r| == |s| + 1
    ensures Ascending(s) && x !in s ==> Ascending(r)
  {
    if s == [] || AtMost(x, s[0]) then
      assert Ascending(s) && x !in s ==> Ascending([x] + s) by { InsertFront(x, s); }
      [x] + s
    else
      var t := Insert(x, s[1..]);
      assert s == [s[0]] + s[1..];
      assert Ascending(s) && x !in s ==> Ascending([s[0]] + t) by { InsertBack(x, s, t); }
      assert Elems([s[0]] + t) == {s[0]} + Elems(t);
      assert Elems(s) == {s[0]} + Elems(s[1..]);
      [s[0]] + t
  }

  lemma InsertFront(x: Str, s: seq<Str>)
    requires s == [] || AtMost(x, s[0])
    ensures Ascending(s) && x !in s ==> Ascending([x] + s)
  {
    if Ascending(s) && x !in s {
      forall j | 0 < j < |s| ensures Less(x, s[j]) {
        Transitive(x, s[0], s[j]);
      }
    }
  }

  lemma InsertBack(x: Str, s: seq<Str>, t: seq<Str>)
    requires s != [] && !AtMost(x, s[0])
    requires Elems(t) == Elems(s[1..]) + {x}
    requires Ascending(s[1..]) && x !in s[1..] ==> Ascending(t)
    ensures Ascending(s) && x !in s ==> Ascending([s[0]] + t)
  {
    if Ascending(s) && x !in s {
      Trichotomy(x, s[0]);
      forall j | 0 <= j < |t| ensures Less(s[0], t[j]) {
        assert t[j] in Elems(t);
      }
    }
  }

  /** `sort.Strings`. */
  function Sort(s: seq<Str>): (r: seq<Str>)
    ensures Elems(r) == Elems(s) && |r| == |s|
    ensures NoDup(s) ==> Ascending(r)
  {
    if s == [] then []
    else
      assert s == [s[0]] + s[1..];
      assert NoDup(s) ==> NoDup(s[1..]) && s[0] !in Elems(s[1..]);
      Insert(s[0], Sort(s[1..]))
  }

  /** The ascending listing of a finite set. */
  ghost function SortedKeys(keys: set<Str>): (r: seq<Str>)
    ensures Ascending(r) && Elems(r) == keys
  {
    if keys == {} then []
    else
      var k :| k in keys;
      var rest := SortedKeys(keys - {k});
      assert k !in Elems(rest);
      Insert(k, rest)
  }

  /** Whatever order an enumeration came in, sorting it gives the listing of its set. */
  lemma SortIsSortedKeys(s: seq<Str>)
    requires NoDup(s)
    ensures Sort(s) == SortedKeys(Elems(s))
  {
    AscendingUnique(Sort(s), SortedKeys(Elems(s)));
  }

  lemma {:induction false} SortedKeysLength(keys: set<Str>)
    ensures |SortedKeys(keys)| == |keys|
  {
    var s := SortedKeys(keys);
    AscendingNoDup(s);
    NoDupCard(s);
  }

  lemma {:induction false} NoDupCard<T>(s: seq<T>)
    requires NoDup(s)
    ensures |Elems(s)| == |s|
  {
    if s != [] {
      NoDupCard(s[1..]);
      assert s == [s[0]] + s[1..];
      assert Elems(s) == Elems(s[1..]) + {s[0]};
      assert s[0] !in Elems(s[1..]);
    }
  }
}
