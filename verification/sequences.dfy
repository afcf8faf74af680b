/** Facts about finite sequences of natural numbers: injectivity, images,
    positions and counting, used to reason about matchings and block orders. */
module Sequences {

  /** No value occurs twice in s. */
  predicate Injective(s: seq<nat>) {
    forall i, j :: 0 <= i < j < |s| ==> s[i] != s[j]
  }

  /** s is strictly increasing. */
  predicate Increasing(s: seq<nat>) {
    forall i, j :: 0 <= i < j < |s| ==> s[i] < s[j]
  }

  /** The set of values held by s. */
  function Image(s: seq<nat>): set<nat> {
    set i | 0 <= i < |s| :: s[i]
  }

  /** The index set {0, ..., n-1}. */
  function Below(n: nat): (r: set<nat>)
    ensures |r| == n
    ensures forall x: nat :: x in r <==> x < n
  {
    if n == 0 then {} else Below(n - 1) + {n - 1}
  }

  /** The first position at which x occurs in s. */
  function IndexOf(s: seq<nat>, x: nat): (i: nat)
    requires x in s
    ensures i < |s| && s[i] == x
    ensures forall j :: 0 <= j < i ==> s[j] != x
  {
    if s[0] == x then 0 else 1 + IndexOf(s[1..], x)
  }

  /** A sequence is empty exactly when nothing is a member of it. */
  lemma EmptyIffNoMember(s: seq<nat>)
    ensures s == [] <==> forall x :: x !in s
  {
    if s != [] {
      assert s[0] in s;
    }
  }

  /** In a sequence without repetitions, the position of s[i] is i. */
  lemma IndexOfInjective(s: seq<nat>, i: nat)
    requires Injective(s) && i < |s|
    ensures IndexOf(s, s[i]) == i
  {
  }

  /** A position of a smallest entry of a non-empty sequence. */
  function ArgMin(w: seq<nat>): (m: nat)
    requires |w| > 0
    ensures m < |w|
    ensures forall i :: 0 <= i < |w| ==> w[m] <= w[i]
  {
    if |w| == 1 then 0
    else
      var m := ArgMin(w[1..]);
      if w[0] <= w[m + 1] then 0 else m + 1
  }

  /** The number of true entries of s. */
  function CountTrue(s: seq<bool>): nat {
    if s == [] then 0 else (if s[0] then 1 else 0) + CountTrue(s[1..])
  }

  /** Counting true entries is monotone in the pointwise order, strictly so when
      some entry is true on the right only. */
  lemma {:induction false} CountTrueMonotone(a: seq<bool>, b: seq<bool>)
    requires |a| == |b|
    requires forall i :: 0 <= i < |a| && a[i] ==> b[i]
    ensures CountTrue(a) <= CountTrue(b)
    ensures (exists i :: 0 <= i < |a| && b[i] && !a[i]) ==> CountTrue(a) < CountTrue(b)
  {
    if |a| > 0 {
      assert forall i :: 0 <= i < |a[1..]| && a[1..][i] ==> b[1..][i] by {
        forall i | 0 <= i < |a[1..]| && a[1..][i] ensures b[1..][i] {
          assert a[i + 1] ==> b[i + 1];
        }
      }
      CountTrueMonotone(a[1..], b[1..]);
      if exists i :: 0 <= i < |a| && b[i] && !a[i] {
        var i :| 0 <= i < |a| && b[i] && !a[i];
        if i > 0 {
          assert b[1..][i - 1] && !a[1..][i - 1];
        }
      }
    }
  }

  /** A sequence has at most as many distinct values as entries, and exactly as
      many precisely when it is injective. */
  lemma {:induction false} ImageSize(s: seq<nat>)
    ensures |Image(s)| <= |s|
    ensures |Image(s)| == |s| <==> Injective(s)
  {
    if |s| > 0 {
      var p := s[..|s| - 1];
      var last := s[|s| - 1];
      ImageSize(p);
      ImageSnoc(s);
      if last in Image(p) {
        // the last entry repeats an earlier one
        assert Image(s) == Image(p);
        var i :| 0 <= i < |p| && p[i] == last;
        assert s[i] == s[|s| - 1];
      } else {
        assert |Image(s)| == |Image(p)| + 1;
        if Injective(p) {
          forall i, j | 0 <= i < j < |s| ensures s[i] != s[j] {
            if j < |s| - 1 {
              assert s[i] == p[i] && s[j] == p[j];
            } else {
              assert s[i] == p[i] && p[i] in Image(p);
            }
          }
        }
        if Injective(s) {
          forall i, j | 0 <= i < j < |p| ensures p[i] != p[j] {
            assert p[i] == s[i] && p[j] == s[j];
          }
        }
      }
    }
  }

  /** A subset is no larger than its superset, and strictly smaller when it
      misses an element. */
  lemma SubsetSize(a: set<nat>, b: set<nat>)
    requires a <= b
    ensures |a| <= |b|
    ensures a != b ==> |a| < |b|
  {
    assert b == a + (b - a);
    assert a * (b - a) == {};
    if a != b {
      var x :| x in b && x !in a;
      assert x in b - a;
    }
  }

  /** An injective sequence of n values below n takes every value below n
      (the pigeonhole principle). */
  lemma InjectiveOntoBelow(s: seq<nat>, n: nat)
    requires |s| == n && Injective(s)
    requires forall i :: 0 <= i < |s| ==> s[i] < n
    ensures Image(s) == Below(n)
  {
    ImageSize(s);
    assert Image(s) <= Below(n);
    SubsetSize(Image(s), Below(n));
  }

  /** A sequence of values below n that takes every value below n has exactly
      the values below n. */
  lemma ImageIsBelow(s: seq<nat>, n: nat)
    requires forall i :: 0 <= i < |s| ==> s[i] < n
    requires forall k :: 0 <= k < n ==> k in s
    ensures Image(s) == Below(n)
  {
    forall k: nat ensures k in Image(s) <==> k in Below(n) {
      if k < n {
        assert k in s;
        var i :| 0 <= i < |s| && s[i] == k;
      }
    }
  }

  /** Two sequences that group their positions alike (equal entries at the
      same pairs of positions) hold equally many distinct values. */
  lemma {:induction false} SameGroupingSameCount(s: seq<nat>, t: seq<nat>)
    requires |s| == |t|
    requires forall i, j :: 0 <= i < |s| && 0 <= j < |s| ==> (s[i] == s[j] <==> t[i] == t[j])
    ensures |Image(s)| == |Image(t)|
  {
    if |s| > 0 {
      var n := |s| - 1;
      var s', t' := s[..n], t[..n];
      assert forall i, j :: 0 <= i < n && 0 <= j < n ==> (s'[i] == s'[j] <==> t'[i] == t'[j]) by {
        forall i, j | 0 <= i < n && 0 <= j < n ensures s'[i] == s'[j] <==> t'[i] == t'[j] {
          assert s'[i] == s[i] && s'[j] == s[j] && t'[i] == t[i] && t'[j] == t[j];
        }
      }
      SameGroupingSameCount(s', t');
      ImageSnoc(s);
      ImageSnoc(t);
      assert s[n] in Image(s') <==> t[n] in Image(t') by {
        if s[n] in Image(s') {
          var i :| 0 <= i < n && s'[i] == s[n];
          assert t'[i] == t[n] && t'[i] in Image(t');
        }
        if t[n] in Image(t') {
          var i :| 0 <= i < n && t'[i] == t[n];
          assert s'[i] == s[n] && s'[i] in Image(s');
        }
      }
      if s[n] in Image(s') {
        assert Image(s) == Image(s') && Image(t) == Image(t');
      } else {
        assert |Image(s)| == |Image(s')| + 1 && |Image(t)| == |Image(t')| + 1;
      }
    }
  }

  /** The values of a non-empty sequence are those of all but its last entry, plus the last. */
  lemma ImageSnoc(s: seq<nat>)
    requires |s| > 0
    ensures Image(s) == Image(s[..|s| - 1]) + {s[|s| - 1]}
  {
    var p := s[..|s| - 1];
    forall x ensures x in Image(s) <==> x in Image(p) + {s[|s| - 1]} {
      if x in Image(s) {
        var i :| 0 <= i < |s| && s[i] == x;
        if i < |s| - 1 {
          assert p[i] == x;
        }
      }
      if x in Image(p) {
        var i :| 0 <= i < |p| && p[i] == x;
        assert s[i] == x;
      }
    }
  }
}
