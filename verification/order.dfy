/** Ruby's `String#<=>` ordering and `hash.keys.sort`.

    Ruby compares strings byte by byte; on UTF-8 text that is the order of
    character codes, which is the order `LexLe` below uses. */
module Order {

  /** `a <= b` as Ruby compares strings: lexicographic, a proper prefix first. */
  predicate LexLe(a: string, b: string)
    decreases |a|
  {
    if |a| == 0 then true
    else if |b| == 0 then false
    else if a[0] != b[0] then a[0] < b[0]
    else LexLe(a[1..], b[1..])
  }

  lemma {:induction false} LexTotal(a: string, b: string)
    ensures LexLe(a, b) || LexLe(b, a)
    decreases |a|
  {
    if |a| > 0 && |b| > 0 && a[0] == b[0] {
      LexTotal(a[1..], b[1..]);
    }
  }

  lemma {:induction false} LexAntisymmetric(a: string, b: string)
    requires LexLe(a, b) && LexLe(b, a)
    ensures a == b
    decreases |a|
  {
    if |a| > 0 {
      LexAntisymmetric(a[1..], b[1..]);
      assert a == [a[0]] + a[1..] && b == [b[0]] + b[1..];
    }
  }

  lemma {:induction false} LexTransitive(a: string, b: string, c: string)
    requires LexLe(a, b) && LexLe(b, c)
    ensures LexLe(a, c)
    decreases |a|
  {
    if |a| > 0 && a[0] == b[0] && b[0] == c[0] {
      LexTransitive(a[1..], b[1..], c[1..]);
    }
  }

  lemma LexAntisymmetricAll()
    ensures forall a, b :: LexLe(a, b) && LexLe(b, a) ==> a == b
  {
    forall a, b | LexLe(a, b) && LexLe(b, a) ensures a == b {
      LexAntisymmetric(a, b);
    }
  }

  /** `k` is the smallest string of `s`. */
  predicate IsLeast(k: string, s: set<string>) {
    k in s && forall x :: x in s ==> LexLe(k, x)
  }

  lemma {:induction false} LeastExists(s: set<string>)
    requires s != {}
    ensures exists k :: IsLeast(k, s)
    decreases |s|
  {
    var x :| x in s;
    if s == {x} {
      LexTotal(x, x);
      assert IsLeast(x, s);
    } else {
      LeastExists(s - {x});
      var y :| IsLeast(y, s - {x});
      LexTotal(x, y);
      if LexLe(x, y) {
        forall z | z in s ensures LexLe(x, z) {
          if z != x {
            LexTransitive(x, y, z);
          } else {
            LexTotal(x, x);
          }
        }
        assert IsLeast(x, s);
      } else {
        assert IsLeast(y, s);
      }
    }
  }

  /** Strictly ascending in Ruby's string order (hence duplicate-free). */
  predicate StrictlySorted(r: seq<string>) {
    forall i, j :: 0 <= i < j < |r| ==> LexLe(r[i], r[j]) && r[i] != r[j]
  }

  /** `hash.keys.sort`: the keys of a hash in ascending string order. */
  function SortedKeys(s: set<string>): (r: seq<string>)
    ensures StrictlySorted(r)
    ensures forall x :: x in r <==> x in s
    ensures |r| == |s|
    decreases |s|
  {
    if s == {} then []
    else
      LeastExists(s);
      LexAntisymmetricAll();
      var k :| IsLeast(k, s);
      var rest := SortedKeys(s - {k});
      assert |s - {k}| == |s| - 1;
      assert StrictlySorted([k] + rest) by {
        forall i, j | 0 <= i < j < |[k] + rest|
          ensures LexLe(([k] + rest)[i], ([k] + rest)[j]) && ([k] + rest)[i] != ([k] + rest)[j]
        {
          if i == 0 {
            assert ([k] + rest)[j] == rest[j - 1];
            assert rest[j - 1] in s - {k};
          } else {
            assert ([k] + rest)[i] == rest[i - 1] && ([k] + rest)[j] == rest[j - 1];
          }
        }
      }
      [k] + rest
  }
}
