/**
 * The order Python uses to compare two `str` values, which `json.dumps(..., sort_keys=True)`
 * uses to order the keys of every object: lexicographic by code point, a proper prefix
 * coming first.
 */
module StringOrder {

  predicate Less(a: string, b: string)
    decreases |a|
  {
    if a == [] then b != []
    else b != [] && (a[0] < b[0] || (a[0] == b[0] && Less(a[1..], b[1..])))
  }

  lemma {:induction false} LessIrreflexive(a: string)
    ensures !Less(a, a)
    decreases |a|
  {
    if a != [] {
      LessIrreflexive(a[1..]);
    }
  }

  lemma {:induction false} LessTransitive(a: string, b: string, c: string)
    requires Less(a, b) && Less(b, c)
    ensures Less(a, c)
    decreases |a|
  {
    if a != [] && a[0] == b[0] && b[0] == c[0] {
      LessTransitive(a[1..], b[1..], c[1..]);
    }
  }

  lemma {:induction false} LessTotal(a: string, b: string)
    requires a != b
    ensures Less(a, b) || Less(b, a)
    decreases |a|
  {
    if a != [] && b != [] && a[0] == b[0] {
      assert a == [a[0]] + a[1..] && b == [b[0]] + b[1..];
      LessTotal(a[1..], b[1..]);
    }
  }

  lemma LessAsymmetric(a: string, b: string)
    requires Less(a, b)
    ensures !Less(b, a)
  {
    if Less(b, a) {
      LessTransitive(a, b, a);
      LessIrreflexive(a);
    }
  }

  /** `k` is the smallest element of `s`. */
  predicate IsLeast(k: string, s: set<string>) {
    k in s && forall j :: j in s && j != k ==> Less(k, j)
  }

  lemma {:induction false} LeastExists(s: set<string>)
    requires s != {}
    ensures exists k :: IsLeast(k, s)
    decreases |s|
  {
    var x :| x in s;
    if s == {x} {
      assert IsLeast(x, s);
    } else {
      LeastExists(s - {x});
      var k :| IsLeast(k, s - {x});
      if Less(k, x) {
        assert IsLeast(k, s);
      } else {
        LessTotal(k, x);
        forall j | j in s && j != x
          ensures Less(x, j)
        {
          if j != k {
            LessTransitive(x, k, j);
          }
        }
        assert IsLeast(x, s);
      }
    }
  }

  lemma LeastUnique(s: set<string>)
    ensures forall a, b :: IsLeast(a, s) && IsLeast(b, s) ==> a == b
  {
    forall a, b | IsLeast(a, s) && IsLeast(b, s)
      ensures a == b
    {
      if a != b {
        LessAsymmetric(a, b);
      }
    }
  }

  predicate StrictlyIncreasing(r: seq<string>) {
    forall i, j :: 0 <= i < j < |r| ==> Less(r[i], r[j])
  }

  /** The elements of `keys` in increasing order: the order `sort_keys=True` writes them in. */
  function Sorted(keys: set<string>): seq<string>
    decreases |keys|
  {
    if keys == {} then []
    else
      LeastExists(keys);
      LeastUnique(keys);
      var k :| IsLeast(k, keys);
      [k] + Sorted(keys - {k})
  }

  /** `Sorted(keys)` lists every element of `keys` once, in strictly increasing order. */
  lemma {:induction false} SortedListsKeys(keys: set<string>)
    ensures |Sorted(keys)| == |keys|
    ensures forall k :: k in Sorted(keys) <==> k in keys
    ensures StrictlyIncreasing(Sorted(keys))
    decreases |keys|
  {
    if keys != {} {
      LeastExists(keys);
      LeastUnique(keys);
      var k :| IsLeast(k, keys);
      var rest := Sorted(keys - {k});
      assert Sorted(keys) == [k] + rest;
      SortedListsKeys(keys - {k});
      var r := [k] + rest;
      forall i, j | 0 <= i < j < |r|
        ensures Less(r[i], r[j])
      {
        assert r[j] == rest[j - 1] && rest[j - 1] in keys - {k};
        if 0 < i {
          assert r[i] == rest[i - 1];
        }
      }
    }
  }

  /** The first element of an increasing listing is below every other element. */
  lemma FirstIsLeast(r: seq<string>, k: string)
    requires StrictlyIncreasing(r)
    requires k in r
    ensures k == r[0] || Less(r[0], k)
  {
    var j :| 0 <= j < |r| && r[j] == k;
  }

  /**
   * A set has exactly one increasing listing, so the sorted order depends on the set of keys
   * alone and never on the order in which the keys were inserted.
   */
  lemma {:induction false} IncreasingListingUnique(r1: seq<string>, r2: seq<string>)
    requires StrictlyIncreasing(r1) && StrictlyIncreasing(r2)
    requires forall k :: k in r1 <==> k in r2
    ensures r1 == r2
    decreases |r1|
  {
    assert r1 != [] ==> r1[0] in r1;
    assert r2 != [] ==> r2[0] in r2;
    if r1 != [] && r2 != [] {
      FirstIsLeast(r1, r2[0]);
      FirstIsLeast(r2, r1[0]);
      if r1[0] != r2[0] {
        LessAsymmetric(r1[0], r2[0]);
      }
      assert r1 == [r1[0]] + r1[1..] && r2 == [r2[0]] + r2[1..];
      forall k
        ensures k in r1[1..] <==> k in r2[1..]
      {
        if k in r1[1..] {
          var i :| 1 <= i < |r1| && r1[i] == k;
          assert Less(r1[0], k);
          LessIrreflexive(k);
          assert k in r2 && k != r2[0];
        }
        if k in r2[1..] {
          var i :| 1 <= i < |r2| && r2[i] == k;
          assert Less(r2[0], k);
          LessIrreflexive(k);
          assert k in r1 && k != r1[0];
        }
      }
      IncreasingListingUnique(r1[1..], r2[1..]);
    }
  }
}
