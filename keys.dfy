/**
 * Keys of a categorical column: Python's ordering of `str` values, the sorted
 * distinct keys that a sorting `groupby` produces, and occurrence counts.
 */
module Keys {

  /** Python's `<` on `str`: lexicographic by code point, a proper prefix first. */
  predicate Less(a: string, b: string)
    decreases |a|
  {
    if a == [] then b != []
    else b != [] && (a[0] < b[0] || (a[0] == b[0] && Less(a[1..], b[1..])))
  }

  lemma {:induction false} LessIrreflexive(a: string)
    ensures !Less(a, a)
    decreases |a|
  {
    if a != [] {
      LessIrreflexive(a[1..]);
    }
  }

  lemma {:induction false} LessTransitive(a: string, b: string, c: string)
    requires Less(a, b) && Less(b, c)
    ensures Less(a, c)
    decreases |a|
  {
    if a != [] && a[0] == b[0] && b[0] == c[0] {
      LessTransitive(a[1..], b[1..], c[1..]);
    }
  }

  lemma {:induction false} LessTotal(a: string, b: string)
    requires a != b
    ensures Less(a, b) || Less(b, a)
    decreases |a|
  {
    if a != [] && b != [] && a[0] == b[0] {
      assert a == [a[0]] + a[1..] && b == [b[0]] + b[1..];
      LessTotal(a[1..], b[1..]);
    }
  }

  predicate StrictlyIncreasing(s: seq<string>) {
    forall i, j :: 0 <= i < j < |s| ==> Less(s[i], s[j])
  }

  predicate Distinct<T(==)>(s: seq<T>) {
    forall i, j :: 0 <= i < j < |s| ==> s[i] != s[j]
  }

  lemma StrictlyIncreasingIsDistinct(s: seq<string>)
    requires StrictlyIncreasing(s)
    ensures Distinct(s)
  {
    forall i, j | 0 <= i < j < |s|
      ensures s[i] != s[j]
    {
      LessIrreflexive(s[i]);
    }
  }

  /** Adds v to the strictly increasing keys ks at its place, unless already there. */
  function Insert(ks: seq<string>, v: string): (r: seq<string>)
    requires StrictlyIncreasing(ks)
    ensures StrictlyIncreasing(r)
    ensures forall x :: x in r <==> x in ks || x == v
  {
    if ks == [] then [v]
    else if v == ks[0] then ks
    else if Less(v, ks[0]) then
      assert forall j :: 0 < j < |ks| ==> Less(v, ks[j]) by {
        forall j | 0 < j < |ks| ensures Less(v, ks[j]) {
          LessTransitive(v, ks[0], ks[j]);
        }
      }
      [v] + ks
    else
      var rest := Insert(ks[1..], v);
      LessTotal(v, ks[0]);
      assert forall x :: x in rest ==> Less(ks[0], x);
      [ks[0]] + rest
  }

  /** The distinct values of vals in increasing order: the key order of a
      sorting `groupby` and of the frame that `unstack` builds from it. */
  function SortedKeys(vals: seq<string>): (keys: seq<string>)
    ensures StrictlyIncreasing(keys)
    ensures forall x :: x in keys <==> x in vals
  {
    if vals == [] then []
    else
      var keys := Insert(SortedKeys(vals[..|vals| - 1]), vals[|vals| - 1]);
      assert vals == vals[..|vals| - 1] + [vals[|vals| - 1]];
      keys
  }

  /** No member of a strictly increasing list is below its head. */
  lemma HeadIsLeast(s: seq<string>, x: string)
    requires StrictlyIncreasing(s) && x in s
    ensures !Less(x, s[0])
  {
    var k :| 0 <= k < |s| && s[k] == x;
    LessIrreflexive(s[0]);
    if k > 0 && Less(x, s[0]) {
      LessTransitive(s[0], x, s[0]);
    }
  }

  /** Two strictly increasing key lists with the same members are the same list. */
  lemma {:induction false} StrictlyIncreasingUnique(a: seq<string>, b: seq<string>)
    requires StrictlyIncreasing(a) && StrictlyIncreasing(b)
    requires forall x :: x in a <==> x in b
    ensures a == b
    decreases |a|
  {
    assert a != [] ==> a[0] in b;
    assert b != [] ==> b[0] in a;
    if a != [] && b != [] {
      assert a[0] in a && b[0] in b;
      HeadIsLeast(b, a[0]);
      HeadIsLeast(a, b[0]);
      if a[0] != b[0] {
        LessTotal(a[0], b[0]);
      }
      StrictlyIncreasingIsDistinct(a);
      StrictlyIncreasingIsDistinct(b);
      forall x
        ensures x in a[1..] <==> x in b[1..]
      {
        if x in a[1..] {
          var k :| 1 <= k < |a| && a[k] == x;
          assert x in b && x != b[0];
        }
        if x in b[1..] {
          var k :| 1 <= k < |b| && b[k] == x;
          assert x in a && x != a[0];
        }
      }
      StrictlyIncreasingUnique(a[1..], b[1..]);
    }
  }

  /** How many times v occurs in s (`value_counts().get(v, 0)`). */
  function Occurrences<T(==)>(s: seq<T>, v: T): (n: nat)
    ensures n <= |s|
    ensures n > 0 <==> v in s
  {
    if s == [] then 0
    else
      assert s == s[..|s| - 1] + [s[|s| - 1]];
      Occurrences(s[..|s| - 1], v) + (if s[|s| - 1] == v then 1 else 0)
  }

  lemma {:induction false} OccurrencesInDistinct<T>(s: seq<T>, v: T)
    requires Distinct(s)
    ensures Occurrences(s, v) == if v in s then 1 else 0
  {
    if s != [] {
      var init := s[..|s| - 1];
      assert Distinct(init);
      OccurrencesInDistinct(init, v);
      if s[|s| - 1] == v {
        assert v !in init;
      }
    }
  }
}
