/** Python's ordering of str values (code point by code point, a proper prefix
    first) and list.sort() on a list of lines. */
module Sorting {

  /** a <= b for Python strings. */
  predicate StrLe(a: string, b: string)
    decreases |a|
  {
    a == [] || (b != [] && (a[0] < b[0] || (a[0] == b[0] && StrLe(a[1..], b[1..]))))
  }

  lemma {:induction false} StrLeTotal(a: string, b: string)
    ensures StrLe(a, b) || StrLe(b, a)
    decreases |a|
  {
    if a != [] && b != [] && a[0] == b[0] {
      StrLeTotal(a[1..], b[1..]);
    }
  }

  lemma {:induction false} StrLeAntisymmetric(a: string, b: string)
    requires StrLe(a, b) && StrLe(b, a)
    ensures a == b
    decreases |a|
  {
    if a != [] {
      StrLeAntisymmetric(a[1..], b[1..]);
      assert a == [a[0]] + a[1..] && b == [b[0]] + b[1..];
    }
  }

  lemma {:induction false} StrLeTransitive(a: string, b: string, c: string)
    requires StrLe(a, b) && StrLe(b, c)
    ensures StrLe(a, c)
    decreases |a|
  {
    if a != [] && a[0] == b[0] && b[0] == c[0] {
      StrLeTransitive(a[1..], b[1..], c[1..]);
    }
  }

  /** Strings with a common start compare as their remainders do. */
  lemma {:induction false} StrLeCommonPrefix(p: string, a: string, b: string)
    ensures StrLe(p + a, p + b) <==> StrLe(a, b)
    decreases |p|
  {
    if p != [] {
      assert (p + a)[1..] == p[1..] + a && (p + b)[1..] == p[1..] + b;
      assert (p + a)[0] == p[0] == (p + b)[0];
      StrLeCommonPrefix(p[1..], a, b);
      assert StrLe(p + a, p + b) <==> StrLe(p[1..] + a, p[1..] + b);
    } else {
      assert p + a == a && p + b == b;
    }
  }

  /** Ascending order, as list.sort() leaves a list. */
  predicate Sorted(s: seq<string>) {
    forall i, j :: 0 <= i < j < |s| ==> StrLe(s[i], s[j])
  }

  /** `x` placed before the first element of `s` that it does not exceed. */
  function Insert(x: string, s: seq<string>): seq<string>
    decreases |s|
  {
    if s == [] then [x]
    else if StrLe(x, s[0]) then [x] + s
    else [s[0]] + Insert(x, s[1..])
  }

  /** Inserting into a sorted list keeps it sorted and adds exactly `x`. */
  lemma {:induction false} InsertSorted(x: string, s: seq<string>)
    requires Sorted(s)
    ensures Sorted(Insert(x, s))
    ensures multiset(Insert(x, s)) == multiset(s) + multiset{x}
    decreases |s|
  {
    if s != [] {
      if StrLe(x, s[0]) {
        InsertFront(x, s);
      } else {
        InsertSorted(x, s[1..]);
        InsertBehind(x, s, Insert(x, s[1..]));
      }
    }
  }

  lemma InsertFront(x: string, s: seq<string>)
    requires Sorted(s) && s != [] && StrLe(x, s[0])
    ensures Sorted([x] + s)
  {
    forall j | 0 < j < |s| ensures StrLe(x, s[j]) {
      StrLeTransitive(x, s[0], s[j]);
    }
  }

  lemma InsertBehind(x: string, s: seq<string>, t: seq<string>)
    requires Sorted(s) && s != [] && !StrLe(x, s[0])
    requires Sorted(t) && multiset(t) == multiset(s[1..]) + multiset{x}
    ensures Sorted([s[0]] + t)
    ensures multiset([s[0]] + t) == multiset(s) + multiset{x}
  {
    assert s == [s[0]] + s[1..];
    StrLeTotal(x, s[0]);
    forall j | 0 <= j < |t| ensures StrLe(s[0], t[j]) {
      assert t[j] in multiset(t);
      if t[j] != x {
        assert t[j] in multiset(s[1..]);
        var i :| 0 <= i < |s[1..]| && s[1..][i] == t[j];
        assert s[i + 1] == t[j];
      }
    }
  }

  /** list.sort(): the lines in ascending order. */
  function Sort(s: seq<string>): seq<string>
    decreases |s|
  {
    if s == [] then [] else Insert(s[0], Sort(s[1..]))
  }

  /** list.sort() leaves the lines in ascending order, a permutation of the input. */
  lemma {:induction false} SortSpec(s: seq<string>)
    ensures Sorted(Sort(s))
    ensures multiset(Sort(s)) == multiset(s)
    ensures |Sort(s)| == |s|
    decreases |s|
  {
    if s != [] {
      SortSpec(s[1..]);
      InsertSorted(s[0], Sort(s[1..]));
      assert s == [s[0]] + s[1..];
      assert |Sort(s)| == |multiset(Sort(s))|;
    }
  }

  /** Every line of the sorted list is a line of the input, so a property all
      input lines share holds of every sorted line. */
  lemma SortKeeps(s: seq<string>, p: string -> bool)
    requires forall k :: 0 <= k < |s| ==> p(s[k])
    ensures forall k :: 0 <= k < |Sort(s)| ==> p(Sort(s)[k])
  {
    var r := Sort(s);
    SortSpec(s);
    forall k | 0 <= k < |r| ensures p(r[k]) {
      assert r[k] in multiset(s);
    }
  }

  /** The first line of a sorted list is at most every line in it. */
  lemma SortedHeadLeast(a: seq<string>, y: string)
    requires Sorted(a) && y in multiset(a)
    ensures StrLe(a[0], y)
  {
    var i :| 0 <= i < |a| && a[i] == y;
    if i == 0 { StrLeTotal(y, y); }
  }

  /** A sorted arrangement of a multiset of lines is unique: whatever sorts the
      block, the result is the one Sort gives. */
  lemma {:induction false} SortedPermutationUnique(a: seq<string>, b: seq<string>)
    requires Sorted(a) && Sorted(b)
    requires multiset(a) == multiset(b)
    ensures a == b
    decreases |a|
  {
    assert |a| == |multiset(a)| == |multiset(b)| == |b|;
    if a != [] {
      SortedHeadLeast(a, b[0]);
      SortedHeadLeast(b, a[0]);
      StrLeAntisymmetric(a[0], b[0]);
      var a', b' := a[1..], b[1..];
      assert a == [a[0]] + a' && b == [b[0]] + b';
      assert multiset(a) == multiset{a[0]} + multiset(a');
      assert multiset(b) == multiset{b[0]} + multiset(b');
      assert forall y :: multiset(a')[y] == multiset(b')[y] by {
        forall y ensures multiset(a')[y] == multiset(b')[y] {
          assert multiset(a)[y] == multiset{a[0]}[y] + multiset(a')[y];
          assert multiset(b)[y] == multiset{b[0]}[y] + multiset(b')[y];
        }
      }
      assert multiset(a') == multiset(b');
      SortedPermutationUnique(a', b');
    }
  }

  /** Sorting lines already in order changes nothing. */
  lemma SortSorted(s: seq<string>)
    requires Sorted(s)
    ensures Sort(s) == s
  {
    SortSpec(s);
    SortedPermutationUnique(Sort(s), s);
  }
}
