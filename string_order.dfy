/**
 The order Go's `<` puts on strings, which `sort.Strings` sorts by: strings
 are compared element by element, a proper prefix comes first, and the empty
 string comes before every other string. Go compares the UTF-8 bytes of the
 two strings; comparing Unicode code points, as done here on `seq<char>`,
 gives the same answer.
 */
module StringOrder {

  /** `a` is at or before `b` in ascending string order (Go's `a <= b`). */
  predicate Below(a: string, b: string)
  {
    if a == [] then true
    else if b == [] then false
    else if a[0] != b[0] then a[0] < b[0]
    else Below(a[1..], b[1..])
  }

  lemma {:induction false} BelowReflexive(a: string)
    ensures Below(a, a)
  {
    if a != [] {
      BelowReflexive(a[1..]);
    }
  }

  lemma {:induction false} BelowAntisymmetric(a: string, b: string)
    requires Below(a, b) && Below(b, a)
    ensures a == b
  {
    if a != [] && b != [] {
      BelowAntisymmetric(a[1..], b[1..]);
      assert a == [a[0]] + a[1..] && b == [b[0]] + b[1..];
    }
  }

  lemma {:induction false} BelowTransitive(a: string, b: string, c: string)
    requires Below(a, b) && Below(b, c)
    ensures Below(a, c)
  {
    if a != [] && b != [] && c != [] && a[0] == b[0] == c[0] {
      BelowTransitive(a[1..], b[1..], c[1..]);
    }
  }

  lemma {:induction false} BelowTotal(a: string, b: string)
    ensures Below(a, b) || Below(b, a)
  {
    if a != [] && b != [] && a[0] == b[0] {
      BelowTotal(a[1..], b[1..]);
    }
  }

  /** A prefix never comes after the string it starts. */
  lemma {:induction false} PrefixIsBelow(a: string, b: string)
    requires |a| <= |b| && b[..|a|] == a
    ensures Below(a, b)
  {
    if a != [] {
      assert b[1..][..|a| - 1] == a[1..];
      PrefixIsBelow(a[1..], b[1..]);
    }
  }

  /** Every neighbouring pair is in ascending order. */
  predicate Sorted(s: seq<string>)
  {
    forall k :: 0 < k < |s| ==> Below(s[k - 1], s[k])
  }

  /** No string occurs twice. */
  predicate Distinct(s: seq<string>)
  {
    forall p, q :: 0 <= p < q < |s| ==> s[p] != s[q]
  }

  /** Ascending neighbours make every earlier element at or before every later one. */
  lemma {:induction false} SortedPairwise(s: seq<string>, p: int, q: int)
    requires Sorted(s) && 0 <= p <= q < |s|
    ensures Below(s[p], s[q])
    decreases q - p
  {
    if p == q {
      BelowReflexive(s[p]);
    } else {
      SortedPairwise(s, p, q - 1);
      BelowTransitive(s[p], s[q - 1], s[q]);
    }
  }

  /** A sequence without repetitions has each element at most once in its multiset. */
  lemma {:induction false} DistinctCounts(s: seq<string>)
    ensures Distinct(s) <==> forall x :: multiset(s)[x] <= 1
  {
    if s != [] {
      var t := s[1..];
      DistinctCounts(t);
      assert s == [s[0]] + t;
      assert multiset(s) == multiset{s[0]} + multiset(t);
      if Distinct(s) {
        assert s[0] !in t by {
          forall q | 0 <= q < |t| ensures t[q] != s[0] {
            assert t[q] == s[q + 1];
          }
        }
        assert Distinct(t) by {
          forall p, q | 0 <= p < q < |t| ensures t[p] != t[q] {
            assert t[p] == s[p + 1] && t[q] == s[q + 1];
          }
        }
      } else {
        var p, q :| 0 <= p < q < |s| && s[p] == s[q];
        if p == 0 {
          assert s[q] == t[q - 1];
          assert multiset(s)[s[0]] >= 2;
        } else {
          assert t[p - 1] == s[p] && t[q - 1] == s[q];
          assert !Distinct(t);
          var x :| multiset(t)[x] > 1;
          assert multiset(s)[x] > 1;
        }
      }
    }
  }

  /** Reordering keeps a sequence free of repetitions. */
  lemma DistinctPermutation(s: seq<string>, t: seq<string>)
    requires Distinct(s) && multiset(s) == multiset(t)
    ensures Distinct(t)
  {
    DistinctCounts(s);
    DistinctCounts(t);
  }

  /**
   The sorted form of a set of strings is unique: two ascending sequences
   without repetitions that hold the same strings are equal.
   */
  lemma {:induction false} SortedDistinctUnique(a: seq<string>, b: seq<string>)
    requires Sorted(a) && Distinct(a) && Sorted(b) && Distinct(b)
    requires forall x :: x in a <==> x in b
    ensures a == b
    decreases |a|
  {
    if a + b != [] {
      var x := (a + b)[0];
      assert x in a + b;
      assert x in a && x in b;
      assert b[0] in a;
      var i :| 0 <= i < |a| && a[i] == b[0];
      assert a[0] in b;
      var j :| 0 <= j < |b| && b[j] == a[0];
      SortedPairwise(a, 0, i);
      SortedPairwise(b, 0, j);
      BelowAntisymmetric(a[0], b[0]);
      var a', b' := a[1..], b[1..];
      forall x ensures x in a' <==> x in b' {
        if x in a' {
          var p :| 0 <= p < |a'| && a'[p] == x;
          assert a[p + 1] == x;
          assert x in b;
          var q :| 0 <= q < |b| && b[q] == x;
          assert q != 0;
          assert b'[q - 1] == x;
        }
        if x in b' {
          var q :| 0 <= q < |b'| && b'[q] == x;
          assert b[q + 1] == x;
          assert x in a;
          var p :| 0 <= p < |a| && a[p] == x;
          assert p != 0;
          assert a'[p - 1] == x;
        }
      }
      assert Sorted(a') && Distinct(a') by {
        forall k | 0 < k < |a'| ensures Below(a'[k - 1], a'[k]) {
          assert a'[k - 1] == a[k] && a'[k] == a[k + 1];
        }
      }
      assert Sorted(b') && Distinct(b') by {
        forall k | 0 < k < |b'| ensures Below(b'[k - 1], b'[k]) {
          assert b'[k - 1] == b[k] && b'[k] == b[k + 1];
        }
      }
      SortedDistinctUnique(a', b');
      assert a == [a[0]] + a' && b == [b[0]] + b';
    }
  }

  /** `m` belongs to `s` and is at or before every string of `s`. */
  ghost predicate IsLeast(m: string, s: set<string>)
  {
    m in s && forall x :: x in s ==> Below(m, x)
  }

  /** Every non-empty finite set of strings has a least element. */
  lemma {:induction false} LeastExists(s: set<string>)
    requires s != {}
    ensures exists m :: IsLeast(m, s)
    decreases |s|
  {
    var y :| y in s;
    var rest := s - {y};
    if rest == {} {
      BelowReflexive(y);
      forall x | x in s ensures Below(y, x) {
        assert x in rest || x == y;
      }
      assert IsLeast(y, s);
    } else {
      LeastExists(rest);
      var m :| IsLeast(m, rest);
      BelowTotal(y, m);
      if Below(y, m) {
        forall x | x in s ensures Below(y, x) {
          if x == y {
            BelowReflexive(y);
          } else {
            BelowTransitive(y, m, x);
          }
        }
        assert IsLeast(y, s);
      } else {
        forall x | x in s ensures Below(m, x) {
          if x != y {
            assert x in rest;
          }
        }
        assert IsLeast(m, s);
      }
    }
  }

  /** The least string of a non-empty set. */
  ghost function Least(s: set<string>): (m: string)
    requires s != {}
    ensures m in s && forall x :: x in s ==> Below(m, x)
  {
    LeastExists(s);
    var m :| IsLeast(m, s);
    m
  }

  /**
   The strings of a set in ascending order, each once: the reference
   definition of what a dedup-and-sort must produce.
   */
  ghost function SortedSeqOf(s: set<string>): (r: seq<string>)
    ensures Sorted(r) && Distinct(r)
    ensures forall x :: x in r <==> x in s
    ensures |r| == |s|
    decreases |s|
  {
    if s == {} then []
    else
      var m := Least(s);
      var tail := SortedSeqOf(s - {m});
      assert tail == [] || (tail[0] in s && Below(m, tail[0]));
      [m] + tail
  }
}
