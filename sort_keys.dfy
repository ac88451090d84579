/** The order of string sort keys: lexicographic by code point. For Unicode
    text this coincides with the UTF-8 byte order in which the key-value
    store sorts string sort keys. */
module SortKeys {

  /** `a` sorts at or before `b`. */
  predicate NotAfter(a: string, b: string)
  {
    |a| == 0 || (|b| > 0 && (a[0] < b[0] || (a[0] == b[0] && NotAfter(a[1..], b[1..]))))
  }

  /** `a` sorts strictly before `b`. */
  predicate Before(a: string, b: string)
  {
    NotAfter(a, b) && a != b
  }

  lemma {:induction false} NotAfterReflexive(a: string)
    ensures NotAfter(a, a)
  {
    if |a| > 0 {
      NotAfterReflexive(a[1..]);
    }
  }

  lemma {:induction false} NotAfterTotal(a: string, b: string)
    ensures NotAfter(a, b) || NotAfter(b, a)
  {
    if |a| > 0 && |b| > 0 && a[0] == b[0] {
      NotAfterTotal(a[1..], b[1..]);
    }
  }

  lemma {:induction false} NotAfterAntisymmetric(a: string, b: string)
    requires NotAfter(a, b) && NotAfter(b, a)
    ensures a == b
  {
    if |a| > 0 && |b| > 0 {
      NotAfterAntisymmetric(a[1..], b[1..]);
      assert a == [a[0]] + a[1..] && b == [b[0]] + b[1..];
    }
  }

  lemma {:induction false} NotAfterTransitive(a: string, b: string, c: string)
    requires NotAfter(a, b) && NotAfter(b, c)
    ensures NotAfter(a, c)
  {
    if |a| > 0 && |b| > 0 && |c| > 0 && a[0] == b[0] && b[0] == c[0] {
      NotAfterTransitive(a[1..], b[1..], c[1..]);
    }
  }

  /** `m` is the greatest key of `keys`. */
  predicate IsMax(m: string, keys: set<string>)
  {
    m in keys && forall k | k in keys :: NotAfter(k, m)
  }

  lemma {:induction false} MaxExists(keys: set<string>)
    requires keys != {}
    ensures exists m :: IsMax(m, keys)
    decreases |keys|
  {
    var x :| x in keys;
    var rest := keys - {x};
    NotAfterReflexive(x);
    if rest == {} {
      assert keys == {x};
      assert IsMax(x, keys);
    } else {
      MaxExists(rest);
      var m :| IsMax(m, rest);
      NotAfterTotal(x, m);
      if NotAfter(x, m) {
        assert IsMax(m, keys);
      } else {
        forall k | k in keys
          ensures NotAfter(k, x)
        {
          if k != x {
            NotAfterTransitive(k, m, x);
          }
        }
        assert IsMax(x, keys);
      }
    }
  }

  lemma MaxUnique(keys: set<string>)
    ensures forall m, m' :: IsMax(m, keys) && IsMax(m', keys) ==> m == m'
  {
    forall m, m' | IsMax(m, keys) && IsMax(m', keys)
      ensures m == m'
    {
      NotAfterAntisymmetric(m, m');
    }
  }

  /** The greatest key of a non-empty set of keys. */
  function MaxKey(keys: set<string>): (m: string)
    requires keys != {}
    ensures m in keys
    ensures forall k :: k in keys ==> NotAfter(k, m)
  {
    MaxExists(keys);
    MaxUnique(keys);
    var m :| IsMax(m, keys);
    m
  }

  /** The keys of a set, greatest first: what a range query over one
      partition returns when it scans the sort keys backwards. */
  function SortedDescending(keys: set<string>): (r: seq<string>)
    ensures |r| == |keys|
    ensures forall k :: k in keys <==> k in r
    ensures forall i, j :: 0 <= i < j < |r| ==> Before(r[j], r[i])
    decreases |keys|
  {
    if keys == {} then []
    else
      var m := MaxKey(keys);
      var rest := SortedDescending(keys - {m});
      assert forall j :: 0 <= j < |rest| ==> Before(rest[j], m) by {
        forall j | 0 <= j < |rest|
          ensures Before(rest[j], m)
        {
          assert rest[j] in rest;
        }
      }
      PrependGreatest(m, rest);
      [m] + rest
  }

  lemma PrependGreatest(m: string, rest: seq<string>)
    requires forall j :: 0 <= j < |rest| ==> Before(rest[j], m)
    requires forall i, j :: 0 <= i < j < |rest| ==> Before(rest[j], rest[i])
    ensures forall i, j :: 0 <= i < j < |rest| + 1 ==> Before(([m] + rest)[j], ([m] + rest)[i])
  {
    forall i, j | 0 <= i < j < |rest| + 1
      ensures Before(([m] + rest)[j], ([m] + rest)[i])
    {
      if i == 0 {
        assert ([m] + rest)[j] == rest[j - 1];
      } else {
        assert ([m] + rest)[j] == rest[j - 1] && ([m] + rest)[i] == rest[i - 1];
      }
    }
  }
}
