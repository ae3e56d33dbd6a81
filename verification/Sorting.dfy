/** The byte-wise order that Go's `<` and `sort.Strings` use on strings, and the one ascending list of a set. */
module Sorting {

  predicate Less(a: string, b: string) {
    b != "" && (a == "" || a[0] < b[0] || (a[0] == b[0] && Less(a[1..], b[1..])))
  }

  /** The strings agree up to `i`, where `a` ends or has the smaller character. */
  ghost predicate DiffersAt(a: string, b: string, i: nat) {
    i <= |a| && i < |b| && a[..i] == b[..i] && (i < |a| ==> a[i] < b[i])
  }

  lemma {:induction false} LessIsBytewise(a: string, b: string)
    ensures Less(a, b) <==> exists i :: DiffersAt(a, b, i)
  {
    if a != "" && b != "" && a[0] == b[0] {
      LessIsBytewise(a[1..], b[1..]);
      if i: nat :| DiffersAt(a[1..], b[1..], i) {
        assert a[..i + 1] == [a[0]] + a[1..][..i] && b[..i + 1] == [b[0]] + b[1..][..i];
        assert DiffersAt(a, b, i + 1);
      }
      if i: nat :| DiffersAt(a, b, i) {
        assert i > 0;
        assert a[1..][..i - 1] == a[..i][1..] && b[1..][..i - 1] == b[..i][1..];
        assert DiffersAt(a[1..], b[1..], i - 1);
      }
    } else if b != "" && (a == "" || a[0] < b[0]) {
      assert DiffersAt(a, b, 0);
    } else {
      forall i: nat ensures !DiffersAt(a, b, i) {
        if i > 0 && i <= |a| && i < |b| { assert a[..i][0] == a[0] && b[..i][0] == b[0]; }
      }
    }
  }

  ghost predicate Ascending(s: seq<string>) {
    forall i, j :: 0 <= i < j < |s| ==> Less(s[i], s[j])
  }

  lemma Irreflexive(a: string)
    ensures !Less(a, a)
  {}

  lemma Transitive(a: string, b: string, c: string)
    requires Less(a, b) && Less(b, c)
    ensures Less(a, c)
  {}

  lemma {:induction false} Trichotomy(a: string, b: string)
    ensures a == b || Less(a, b) || Less(b, a)
  {
    if a != "" && b != "" && a[0] == b[0] {
      Trichotomy(a[1..], b[1..]);
      assert a == [a[0]] + a[1..] && b == [b[0]] + b[1..];
    }
  }

  /** An ascending list is determined by its elements. */
  lemma {:induction false} AscendingUnique(s: seq<string>, t: seq<string>)
    requires Ascending(s) && Ascending(t)
    requires forall k :: k in s <==> k in t
    ensures s == t
  {
    assert t != [] ==> t[0] in s;
    if s != [] {
      assert s[0] in t;
      assert t[0] in s;
      HeadIsLeast(s, t[0]);
      HeadIsLeast(t, s[0]);
      if s[0] != t[0] { Transitive(s[0], t[0], s[0]); Irreflexive(s[0]); }
      TailExcludesHead(s);
      TailExcludesHead(t);
      assert s == [s[0]] + s[1..] && t == [t[0]] + t[1..];
      forall k ensures k in s[1..] <==> k in t[1..] {
        assert k in s[1..] <==> k in s && k != s[0];
        assert k in t[1..] <==> k in t && k != t[0];
      }
      AscendingUnique(s[1..], t[1..]);
    }
  }

  lemma HeadIsLeast(s: seq<string>, k: string)
    requires Ascending(s) && k in s
    ensures k == s[0] || Less(s[0], k)
  {}

  lemma TailExcludesHead(s: seq<string>)
    requires Ascending(s) && s != []
    ensures s[0] !in s[1..]
  {
    if s[0] in s[1..] {
      var i :| 0 <= i < |s| - 1 && s[1..][i] == s[0];
      assert Less(s[0], s[i + 1]);
      Irreflexive(s[0]);
    }
  }

  function Insert<T>(less: (T, T) -> bool, s: seq<T>, x: T): seq<T> {
    if s == [] then [x]
    else if less(x, s[0]) then [x] + s
    else [s[0]] + Insert(less, s[1..], x)
  }

  /** Go's sorting functions; no list that the program sorts has two elements of one rank. */
  function SortBy<T>(less: (T, T) -> bool, s: seq<T>): seq<T> {
    if s == [] then [] else Insert(less, SortBy(less, s[1..]), s[0])
  }

  function SortStrings(s: seq<string>): seq<string> {
    SortBy(Less, s)
  }

  lemma {:induction false} InsertAscending(s: seq<string>, x: string)
    requires Ascending(s) && x !in s
    ensures Ascending(Insert(Less, s, x))
    ensures forall k :: k in Insert(Less, s, x) <==> k == x || k in s
  {
    if s != [] {
      assert s == [s[0]] + s[1..];
      if Less(x, s[0]) {
        forall i | 0 < i < |s| ensures Less(x, s[i]) { Transitive(x, s[0], s[i]); }
      } else {
        Trichotomy(x, s[0]);
        InsertAscending(s[1..], x);
        forall k | k in Insert(Less, s[1..], x) ensures Less(s[0], k) {
          assert k == x || k in s[1..];
        }
      }
    }
  }

  ghost predicate Distinct<T>(s: seq<T>) {
    forall i, j :: 0 <= i < j < |s| ==> s[i] != s[j]
  }

  lemma {:induction false} SortStringsAscending(s: seq<string>)
    requires Distinct(s)
    ensures Ascending(SortStrings(s))
    ensures forall k :: k in SortStrings(s) <==> k in s
  {
    if s != [] {
      SortStringsAscending(s[1..]);
      assert s == [s[0]] + s[1..];
      assert s[0] !in s[1..];
      InsertAscending(SortStrings(s[1..]), s[0]);
    }
  }

  ghost predicate Lists(s: seq<string>, keys: set<string>) {
    forall k :: k in s <==> k in keys
  }

  lemma ListExists(keys: set<string>)
    ensures exists s :: Ascending(s) && Lists(s, keys)
    decreases |keys|
  {
    if keys == {} {
      assert Ascending([]) && Lists([], keys);
    } else {
      var k :| k in keys;
      ListExists(keys - {k});
      var s :| Ascending(s) && Lists(s, keys - {k});
      InsertAscending(s, k);
      assert Lists(Insert(Less, s, k), keys);
    }
  }

  /** The one ascending list of `keys`. */
  ghost function Sorted(keys: set<string>): (s: seq<string>)
    ensures Ascending(s)
    ensures forall k :: k in s <==> k in keys
  {
    ListExists(keys);
    var s :| Ascending(s) && Lists(s, keys);
    s
  }

  lemma TakeNext<T>(s: seq<T>, i: nat)
    requires i < |s|
    ensures s[..i + 1] == s[..i] + [s[i]]
  {}

  lemma SortedEquals(s: seq<string>, keys: set<string>)
    requires Ascending(s)
    requires forall k :: k in s <==> k in keys
    ensures s == Sorted(keys)
  {
    AscendingUnique(s, Sorted(keys));
  }

  lemma SortStringsIsSorted(s: seq<string>, keys: set<string>)
    requires Distinct(s) && forall k :: k in s <==> k in keys
    ensures SortStrings(s) == Sorted(keys)
  {
    SortStringsAscending(s);
    SortedEquals(SortStrings(s), keys);
  }

  lemma AscendingDistinct(s: seq<string>)
    requires Ascending(s)
    ensures Distinct(s)
  {
    forall i, j | 0 <= i < j < |s| ensures s[i] != s[j] { Irreflexive(s[i]); }
  }

  /** The keys of a map in ascending order, whatever order the map is iterated in. */
  method SortedKeys<V>(m: map<string, V>) returns (keys: seq<string>)
    ensures keys == Sorted(m.Keys)
  {
    keys := [];
    var left := m.Keys;
    while left != {}
      invariant left <= m.Keys
      invariant Distinct(keys) && forall k :: k in keys <==> k in m.Keys - left
      decreases left
    {
      var k :| k in left;
      assert k !in keys;
      keys := keys + [k];
      left := left - {k};
    }
    SortStringsIsSorted(keys, m.Keys);
    keys := SortStrings(keys);
  }
}
