/** Greedy splitting of a list into contiguous pieces that a predicate admits.
    Both the EMF batches (emf.go) and the CloudWatch batches (sink.go) are built this way. */
module Partition {

  function Concat<T>(parts: seq<seq<T>>): seq<T> {
    if parts == [] then [] else Concat(parts[..|parts| - 1]) + parts[|parts| - 1]
  }

  /** Every contiguous piece of an admitted list is admitted. */
  ghost predicate Hereditary<T(!new)>(ok: seq<T> -> bool) {
    forall s: seq<T>, i, j :: 0 <= i <= j <= |s| && ok(s) ==> ok(s[i..j])
  }

  ghost predicate Admitted<T>(ok: seq<T> -> bool, parts: seq<seq<T>>) {
    forall i | 0 <= i < |parts| :: parts[i] != [] && ok(parts[i])
  }

  /** Put `x` into the last piece when the result is admitted, else open a new piece. */
  function Place<T>(ok: seq<T> -> bool, parts: seq<seq<T>>, x: T): seq<seq<T>> {
    if parts == [] then [[x]]
    else
      var last := |parts| - 1;
      if ok(parts[last] + [x]) then parts[..last] + [parts[last] + [x]] else parts + [[x]]
  }

  function Greedy<T>(ok: seq<T> -> bool, data: seq<T>): seq<seq<T>> {
    if data == [] then [] else Place(ok, Greedy(ok, data[..|data| - 1]), data[|data| - 1])
  }

  lemma ConcatSnoc<T>(parts: seq<seq<T>>, p: seq<T>)
    ensures Concat(parts + [p]) == Concat(parts) + p
  {
    assert (parts + [p])[..|parts|] == parts;
  }

  lemma PlaceConcat<T>(ok: seq<T> -> bool, parts: seq<seq<T>>, x: T)
    ensures Concat(Place(ok, parts, x)) == Concat(parts) + [x]
  {
    if parts != [] {
      ConcatSnoc(parts[..|parts| - 1], parts[|parts| - 1] + [x]);
    }
    ConcatSnoc(parts, [x]);
  }

  lemma {:induction false} GreedyConcat<T>(ok: seq<T> -> bool, data: seq<T>)
    ensures Concat(Greedy(ok, data)) == data
    ensures data != [] ==> Greedy(ok, data) != []
  {
    if data != [] {
      var n := |data| - 1;
      GreedyConcat(ok, data[..n]);
      PlaceConcat(ok, Greedy(ok, data[..n]), data[n]);
      assert data == data[..n] + [data[n]];
    }
  }

  lemma {:induction false} GreedyAdmitted<T>(ok: seq<T> -> bool, data: seq<T>)
    requires forall i | 0 <= i < |data| :: ok([data[i]])
    ensures Admitted(ok, Greedy(ok, data))
  {
    if data != [] {
      GreedyAdmitted(ok, data[..|data| - 1]);
    }
  }

  lemma SuffixOfSuffix<T>(a: seq<T>, short: seq<T>, b: seq<T>, long: seq<T>)
    requires a + short == b + long && |short| <= |long|
    ensures short == long[|long| - |short|..|long|]
  {
    forall i | 0 <= i < |short| ensures short[i] == long[|long| - |short| + i] {
      assert short[i] == (a + short)[|a| + i];
      assert (b + long)[|a| + i] == long[|a| + i - |b|];
    }
  }

  lemma BothExtend<T>(a: seq<T>, b: seq<T>, c: seq<T>, d: seq<T>, x: T)
    requires a + b == c + d
    ensures a + (b + [x]) == c + (d + [x])
  {
    assert a + (b + [x]) == (a + b) + [x] && c + (d + [x]) == (c + d) + [x];
  }

  /** A piece ending the split `g`, no longer than `last` without its final `x`, still takes `x`. */
  lemma LastPieceExtends<T(!new)>(ok: seq<T> -> bool, g: seq<seq<T>>, before: seq<T>, last: seq<T>, x: T)
    requires Hereditary(ok) && ok(last) && last != [] && x == last[|last| - 1] && g != []
    requires Concat(g) == before + last[..|last| - 1]
    requires |g[|g| - 1]| < |last|
    ensures ok(g[|g| - 1] + [x])
  {
    var end, piece, front, cut := g[|g| - 1], g[|g| - 1] + [x], Concat(g[..|g| - 1]), last[..|last| - 1];
    assert Concat(g) == front + end && last == cut + [x];
    BothExtend(front, end, before, cut, x);
    SuffixOfSuffix(front, piece, before, last);
    assert ok(last[|last| - |piece|..|last|]);
  }

  /** The greedy split has fewer pieces than `parts`, or as many with a last piece that is no longer. */
  ghost predicate Ahead<T>(g: seq<seq<T>>, parts: seq<seq<T>>) {
    |g| < |parts| || (|g| == |parts| && (g != [] ==> |g[|g| - 1]| <= |parts[|parts| - 1]|))
  }

  lemma {:induction false} GreedyStaysAhead<T(!new)>(ok: seq<T> -> bool, data: seq<T>, parts: seq<seq<T>>)
    requires Hereditary(ok) && Admitted(ok, parts) && Concat(parts) == data
    ensures Ahead(Greedy(ok, data), parts)
  {
    if data != [] {
      var x, init := data[|data| - 1], data[..|data| - 1];
      var before, last := parts[..|parts| - 1], parts[|parts| - 1];
      var g := Greedy(ok, init);
      assert x == last[|last| - 1];
      if |last| == 1 {
        assert Concat(before) == init;
        GreedyStaysAhead(ok, init, before);
      } else {
        var cut := last[..|last| - 1];
        ConcatSnoc(before, cut);
        assert last == cut + [x];
        assert Concat(before) + cut == init;
        assert ok(last[0..|last| - 1]) && last[0..|last| - 1] == cut;
        GreedyStaysAhead(ok, init, before + [cut]);
        GreedyConcat(ok, init);
        if |g| == |parts| {
          LastPieceExtends(ok, g, Concat(before), last, x);
        }
      }
    }
  }

  /** No in-order split into admitted pieces uses fewer pieces than the greedy one. */
  lemma GreedyOptimal<T(!new)>(ok: seq<T> -> bool, data: seq<T>, parts: seq<seq<T>>)
    requires Hereditary(ok) && Admitted(ok, parts) && Concat(parts) == data
    ensures |Greedy(ok, data)| <= |parts|
  {
    GreedyStaysAhead(ok, data, parts);
  }

  /** A list that is admitted as a whole is its own only piece. */
  lemma {:induction false} GreedyWhole<T(!new)>(ok: seq<T> -> bool, data: seq<T>)
    requires Hereditary(ok) && ok(data) && data != []
    ensures Greedy(ok, data) == [data]
  {
    var n := |data| - 1;
    assert data == data[..n] + [data[n]];
    if n > 0 {
      assert data[0..n] == data[..n];
      GreedyWhole(ok, data[..n]);
    }
  }

  // ---------------------------------------------------------------- subsequences

  ghost predicate Subsequence<T>(a: seq<T>, b: seq<T>) {
    a == [] || (b != [] && ((a[0] == b[0] && Subsequence(a[1..], b[1..])) || Subsequence(a, b[1..])))
  }

  lemma {:induction false} SubsequenceSnoc<T>(a: seq<T>, b: seq<T>, x: T)
    requires Subsequence(a, b)
    ensures Subsequence(a, b + [x]) && Subsequence(a + [x], b + [x])
  {
    if b == [] {
      assert [] + [x] == [x] && [x][1..] == [];
    } else {
      assert (b + [x])[1..] == b[1..] + [x];
      if a == [] {
        SubsequenceSnoc(a, b[1..], x);
      } else if a[0] == b[0] && Subsequence(a[1..], b[1..]) {
        assert (a + [x])[1..] == a[1..] + [x];
        SubsequenceSnoc(a[1..], b[1..], x);
      } else {
        SubsequenceSnoc(a, b[1..], x);
      }
    }
  }
}
