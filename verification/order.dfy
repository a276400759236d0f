/**
  Python's ordering of `str` values (code point by code point, a proper prefix
  first) and `sorted` applied to the key set of a dict.
 */
module Order {

  /** Length of the longest common prefix of `a` and `b`: where a comparison first finds a difference. */
  function Agree(a: string, b: string): (k: nat)
    ensures k <= |a| && k <= |b|
    ensures a[..k] == b[..k]
    ensures k < |a| && k < |b| ==> a[k] != b[k]
    decreases |a|
  {
    if |a| == 0 || |b| == 0 || a[0] != b[0] then 0 else 1 + Agree(a[1..], b[1..])
  }

  /** `a < b` on Python strings. */
  predicate Below(a: string, b: string)
    decreases |a|
  {
    if |a| == 0 then |b| > 0
    else |b| > 0 && (a[0] < b[0] || (a[0] == b[0] && Below(a[1..], b[1..])))
  }

  /**
    `Below` is Python's string comparison: compare code points at the first position
    where the strings differ; when one is a prefix of the other, the shorter is less.
   */
  lemma {:induction false} BelowFirstDifference(a: string, b: string)
    ensures Below(a, b) <==> var k := Agree(a, b); if k < |a| && k < |b| then a[k] < b[k] else |a| < |b|
    decreases |a|
  {
    if |a| > 0 && |b| > 0 && a[0] == b[0] {
      BelowFirstDifference(a[1..], b[1..]);
    }
  }

  lemma {:induction false} BelowIrreflexive(a: string)
    ensures !Below(a, a)
    decreases |a|
  {
    if |a| > 0 {
      BelowIrreflexive(a[1..]);
    }
  }

  lemma {:induction false} BelowAsymmetric(a: string, b: string)
    ensures Below(a, b) ==> !Below(b, a)
    decreases |a|
  {
    if |a| > 0 && |b| > 0 && a[0] == b[0] {
      BelowAsymmetric(a[1..], b[1..]);
    }
  }

  lemma {:induction false} BelowTransitive(a: string, b: string, c: string)
    requires Below(a, b) && Below(b, c)
    ensures Below(a, c)
    decreases |a|
  {
    if |a| > 0 && a[0] == b[0] && b[0] == c[0] {
      BelowTransitive(a[1..], b[1..], c[1..]);
    }
  }

  lemma {:induction false} BelowTotal(a: string, b: string)
    requires a != b
    ensures Below(a, b) || Below(b, a)
    decreases |a|
  {
    if |a| > 0 && |b| > 0 && a[0] == b[0] {
      assert a == [a[0]] + a[1..] && b == [b[0]] + b[1..];
      BelowTotal(a[1..], b[1..]);
    }
  }

  /** Each element is Python-less than every later one: sorted and free of repeats. */
  predicate StrictlyIncreasing(s: seq<string>)
  {
    forall i, j :: 0 <= i < j < |s| ==> Below(s[i], s[j])
  }

  /** `m` is below every other element of `ks`. */
  predicate Least(m: string, ks: set<string>)
  {
    forall k :: k in ks && k != m ==> Below(m, k)
  }

  lemma {:induction false} LeastExists(ks: set<string>)
    requires ks != {}
    ensures exists m :: m in ks && Least(m, ks)
    decreases |ks|
  {
    var x :| x in ks;
    if ks != {x} {
      var rest := ks - {x};
      LeastExists(rest);
      var m :| m in rest && Least(m, rest);
      if Below(x, m) {
        forall k | k in ks && k != x
          ensures Below(x, k)
        {
          if k != m {
            BelowTransitive(x, m, k);
          }
        }
        assert Least(x, ks);
      } else {
        BelowTotal(x, m);
        assert Least(m, ks);
      }
    }
  }

  /** Two least elements of one set are the same element. */
  lemma LeastUnique(ks: set<string>)
    ensures forall m, n :: m in ks && Least(m, ks) && n in ks && Least(n, ks) ==> m == n
  {
    forall m, n | m in ks && Least(m, ks) && n in ks && Least(n, ks)
      ensures m == n
    {
      BelowAsymmetric(m, n);
    }
  }

  /** The least key of a non-empty set. */
  function Minimum(ks: set<string>): (m: string)
    requires ks != {}
    ensures m in ks && Least(m, ks)
  {
    LeastExists(ks);
    LeastUnique(ks);
    var m :| m in ks && Least(m, ks);
    m
  }

  /** Putting the least key in front of an increasing listing of the others keeps it increasing. */
  lemma PrependLeast(m: string, ks: set<string>, tail: seq<string>)
    requires m in ks && Least(m, ks)
    requires StrictlyIncreasing(tail)
    requires forall k :: k in tail ==> k in ks && k != m
    ensures StrictlyIncreasing([m] + tail)
  {
    var s := [m] + tail;
    forall i, j | 0 <= i < j < |s|
      ensures Below(s[i], s[j])
    {
      if i == 0 {
        assert s[j] == tail[j - 1];
      } else {
        assert s[i] == tail[i - 1] && s[j] == tail[j - 1];
      }
    }
  }

  /** `sorted(keys)`: the keys listed once each, in increasing order. */
  function SortedKeys(ks: set<string>): (r: seq<string>)
    ensures StrictlyIncreasing(r)
    ensures forall k :: k in r <==> k in ks
    ensures |r| == |ks|
    decreases |ks|
  {
    if ks == {} then []
    else
      var m := Minimum(ks);
      var tail := SortedKeys(ks - {m});
      PrependLeast(m, ks, tail);
      [m] + tail
  }

  /** Two increasing lists holding the same elements are equal. */
  lemma {:induction false} IncreasingUnique(a: seq<string>, b: seq<string>)
    requires StrictlyIncreasing(a) && StrictlyIncreasing(b)
    requires forall x :: x in a <==> x in b
    ensures a == b
    decreases |a|
  {
    if |a| > 0 && |b| > 0 {
      if a[0] != b[0] {
        assert a[0] in a && b[0] in b;
        var i :| 0 <= i < |a| && a[i] == b[0];
        var j :| 0 <= j < |b| && b[j] == a[0];
        BelowAsymmetric(a[0], b[0]);
        assert false;
      }
      assert a == [a[0]] + a[1..] && b == [b[0]] + b[1..];
      BelowIrreflexive(a[0]);
      forall x
        ensures x in a[1..] <==> x in b[1..]
      {
        if x in a[1..] {
          var k :| 0 <= k < |a[1..]| && a[1..][k] == x;
          assert Below(a[0], a[k + 1]);
          assert x in b && x != b[0];
          var l :| 0 <= l < |b| && b[l] == x;
          assert b[1..][l - 1] == x;
        }
        if x in b[1..] {
          var k :| 0 <= k < |b[1..]| && b[1..][k] == x;
          assert Below(b[0], b[k + 1]);
          assert x in a && x != a[0];
          var l :| 0 <= l < |a| && a[l] == x;
          assert a[1..][l - 1] == x;
        }
      }
      IncreasingUnique(a[1..], b[1..]);
    } else if |a| > 0 {
      ElementIn(a, 0);
    } else if |b| > 0 {
      ElementIn(b, 0);
    }
  }

  lemma ElementIn(s: seq<string>, i: nat)
    requires i < |s|
    ensures s[i] in s
  {
  }

  /** `sorted` is characterised by its result: exactly the increasing listing of the keys. */
  lemma SortedKeysCharacterised(ks: set<string>, s: seq<string>)
    ensures s == SortedKeys(ks) <==> StrictlyIncreasing(s) && forall x :: x in s <==> x in ks
  {
    if StrictlyIncreasing(s) && forall x :: x in s <==> x in ks {
      IncreasingUnique(s, SortedKeys(ks));
    }
  }

  /** No name occurs twice; true of any list of dict keys. */
  predicate Distinct(s: seq<string>)
  {
    forall i, j :: 0 <= i < j < |s| ==> s[i] != s[j]
  }

  /** An increasing list holds no repeats. */
  lemma IncreasingDistinct(s: seq<string>)
    requires StrictlyIncreasing(s)
    ensures Distinct(s)
  {
    forall i, j | 0 <= i < j < |s|
      ensures s[i] != s[j]
    {
      BelowIrreflexive(s[i]);
    }
  }

  /** Deleting one element of an increasing list leaves it increasing. */
  lemma IncreasingWithout(s: seq<string>, d: nat)
    requires StrictlyIncreasing(s) && d < |s|
    ensures StrictlyIncreasing(s[..d] + s[d + 1..])
  {
    var r := s[..d] + s[d + 1..];
    forall a, b | 0 <= a < b < |r|
      ensures Below(r[a], r[b])
    {
      var a' := if a < d then a else a + 1;
      var b' := if b < d then b else b + 1;
      assert r[a] == s[a'] && r[b] == s[b'];
    }
  }
}
