/** Frame order: Python's ascending sort of a list of strings, which
    compares code points left to right and puts a proper prefix first. */
module Ordering {

  /** Python's `a <= b` on strings. */
  predicate StrLe(a: string, b: string)
    decreases |a|
  {
    |a| == 0 || (|b| > 0 && (a[0] < b[0] || (a[0] == b[0] && StrLe(a[1..], b[1..]))))
  }

  lemma {:induction false} StrLeReflexive(a: string)
    ensures StrLe(a, a)
    decreases |a|
  {
    if |a| > 0 {
      StrLeReflexive(a[1..]);
    }
  }

  lemma {:induction false} StrLeAntisymmetric(a: string, b: string)
    requires StrLe(a, b) && StrLe(b, a)
    ensures a == b
    decreases |a|
  {
    if |a| > 0 {
      StrLeAntisymmetric(a[1..], b[1..]);
      assert a == [a[0]] + a[1..];
      assert b == [b[0]] + b[1..];
    }
  }

  lemma {:induction false} StrLeTransitive(a: string, b: string, c: string)
    requires StrLe(a, b) && StrLe(b, c)
    ensures StrLe(a, c)
    decreases |a|
  {
    if |a| > 0 && a[0] == b[0] && b[0] == c[0] {
      StrLeTransitive(a[1..], b[1..], c[1..]);
    }
  }

  lemma {:induction false} StrLeTotal(a: string, b: string)
    ensures StrLe(a, b) || StrLe(b, a)
    decreases |a|
  {
    if |a| > 0 && |b| > 0 && a[0] == b[0] {
      StrLeTotal(a[1..], b[1..]);
    }
  }

  /** Adjacent elements are non-decreasing. */
  predicate Sorted(s: seq<string>) {
    forall i, j :: 0 <= i < |s| - 1 && j == i + 1 ==> StrLe(s[i], s[j])
  }

  /** Insertion of one string into a sorted list. */
  function Insert(x: string, s: seq<string>): (r: seq<string>)
    requires Sorted(s)
    ensures Sorted(r)
    ensures multiset(r) == multiset(s) + multiset{x}
    ensures |r| == |s| + 1
    ensures r[0] == x || (|s| > 0 && r[0] == s[0])
  {
    if s == [] then [x]
    else if StrLe(x, s[0]) then [x] + s
    else
      StrLeTotal(x, s[0]);
      var tail := Insert(x, s[1..]);
      assert s == [s[0]] + s[1..];
      [s[0]] + tail
  }

  /** In a sorted list every element is at most every later element. */
  lemma {:induction false} SortedPairwise(s: seq<string>, i: nat, j: nat)
    requires Sorted(s) && i <= j < |s|
    ensures StrLe(s[i], s[j])
    decreases j - i
  {
    if i == j {
      StrLeReflexive(s[i]);
    } else {
      SortedPairwise(s, i, j - 1);
      StrLeTransitive(s[i], s[j - 1], s[j]);
    }
  }

  /** `list.sort()` on strings: the collected paths in ascending order. */
  function Sort(s: seq<string>): (r: seq<string>)
    ensures Sorted(r)
    ensures multiset(r) == multiset(s)
    ensures |r| == |s|
  {
    if s == [] then []
    else
      assert s == s[..|s| - 1] + [s[|s| - 1]];
      Insert(s[|s| - 1], Sort(s[..|s| - 1]))
  }

  /** A shared prefix does not change how two strings compare. */
  lemma {:induction false} StrLeCommonPrefix(p: string, a: string, b: string)
    ensures StrLe(p + a, p + b) <==> StrLe(a, b)
    decreases |p|
  {
    if p != [] {
      assert (p + a)[0] == (p + b)[0];
      assert (p + a)[1..] == p[1..] + a;
      assert (p + b)[1..] == p[1..] + b;
      StrLeCommonPrefix(p[1..], a, b);
    } else {
      assert p + a == a && p + b == b;
    }
  }

  /** Taking the same element out of two permutations of each other leaves
      permutations of each other. */
  lemma RemoveMatching<T>(a: seq<T>, b: seq<T>, i: nat)
    requires multiset(a) == multiset(b)
    requires a != [] && i < |b| && b[i] == a[0]
    ensures multiset(a[1..]) == multiset(b[..i] + b[i + 1..])
  {
    var x := a[0];
    assert b == b[..i] + [x] + b[i + 1..];
    assert a == [x] + a[1..];
    assert multiset(b) == multiset(b[..i]) + multiset{x} + multiset(b[i + 1..]);
    assert multiset(a) == multiset{x} + multiset(a[1..]);
    assert multiset(b[..i] + b[i + 1..]) == multiset(b[..i]) + multiset(b[i + 1..]);
    assert multiset(a[1..]) == multiset(a) - multiset{x};
  }

  /** Two sorted permutations of each other start with the same string. */
  lemma SortedSameHead(a: seq<string>, b: seq<string>)
    requires Sorted(a) && Sorted(b) && a != []
    requires multiset(a) == multiset(b)
    ensures b != [] && a[0] == b[0]
  {
    assert a[0] in multiset(b);
    var i :| 0 <= i < |b| && b[i] == a[0];
    SortedPairwise(b, 0, i);
    assert b[0] in multiset(a);
    var j :| 0 <= j < |a| && a[j] == b[0];
    SortedPairwise(a, 0, j);
    StrLeAntisymmetric(a[0], b[0]);
  }

  /** The tail of a sorted list is sorted. */
  lemma SortedTail(s: seq<string>)
    requires Sorted(s) && s != []
    ensures Sorted(s[1..])
  {
    forall i, j | 0 <= i < |s[1..]| - 1 && j == i + 1 ensures StrLe(s[1..][i], s[1..][j]) {
      assert s[1..][i] == s[i + 1] && s[1..][j] == s[j + 1];
    }
  }

  /** Two permutations of each other with the same head have tails that are
      permutations of each other. */
  lemma SameHeadTails(a: seq<string>, b: seq<string>)
    requires multiset(a) == multiset(b)
    requires a != [] && b != [] && a[0] == b[0]
    ensures multiset(a[1..]) == multiset(b[1..])
  {
    RemoveMatching(a, b, 0);
    assert b[..0] + b[1..] == b[1..];
  }

  /** Two non-empty lists with the same head and the same tail are equal. */
  lemma HeadTailEqual(a: seq<string>, b: seq<string>)
    requires a != [] && b != [] && a[0] == b[0] && a[1..] == b[1..]
    ensures a == b
  {
    assert a == [a[0]] + a[1..];
    assert b == [b[0]] + b[1..];
  }

  /** A sorted list is determined by its contents: two sorted arrangements
      of the same multiset of strings are equal. */
  lemma {:induction false} SortedUnique(a: seq<string>, b: seq<string>)
    requires Sorted(a) && Sorted(b)
    requires multiset(a) == multiset(b)
    ensures a == b
    decreases |a|
  {
    if a == [] {
      assert |b| == 0 by { assert |multiset(b)| == 0; }
    } else {
      SortedSameHead(a, b);
      SameHeadTails(a, b);
      SortedTail(a);
      SortedTail(b);
      SortedUnique(a[1..], b[1..]);
      HeadTailEqual(a, b);
    }
  }

  /** Frame order depends only on which paths were collected, never on the
      order in which the walk reported them. */
  lemma SortIgnoresInputOrder(s1: seq<string>, s2: seq<string>)
    requires multiset(s1) == multiset(s2)
    ensures Sort(s1) == Sort(s2)
  {
    SortedUnique(Sort(s1), Sort(s2));
  }

  /** Sorting an already sorted list leaves it unchanged. */
  lemma SortIdempotent(s: seq<string>)
    requires Sorted(s)
    ensures Sort(s) == s
  {
    SortedUnique(Sort(s), s);
  }

  /** The order is by characters, not by the numbers spelled in the names:
      `frame10.jpg` comes before `frame2.jpg`. */
  lemma CharacterOrderNotNumeric()
    ensures Sort(["frame2.jpg", "frame10.jpg"]) == ["frame10.jpg", "frame2.jpg"]
  {
    var a, b := "frame10.jpg", "frame2.jpg";
    assert StrLe(a, b) by {
      StrLeCommonPrefix("frame", "10.jpg", "2.jpg");
      assert "frame" + "10.jpg" == a && "frame" + "2.jpg" == b;
    }
    assert Sorted([a, b]);
    assert multiset([b, a]) == multiset([a, b]) by {
      assert multiset([b, a]) == multiset{b, a};
      assert multiset([a, b]) == multiset{a, b};
    }
    SortedUnique(Sort([b, a]), [a, b]);
  }
}
