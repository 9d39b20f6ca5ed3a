/**
  The key order of every index: Go's `bytes.Compare` on raw byte strings and
  the strict "less than" that the tree's items use (db.go, KeyValuePair.Less).
  The tree treats two keys as the same key when neither is less than the
  other; the lemmas below show that this happens exactly when the byte
  strings are equal, which is why an index can be modelled as a finite map.
*/
module ByteOrder {

  newtype byte = x: int | 0 <= x < 256

  /** Three-way lexicographic comparison: -1, 0 or +1; a proper prefix sorts first. */
  function Compare(a: seq<byte>, b: seq<byte>): (r: int)
    ensures -1 <= r <= 1
    ensures r == 0 <==> a == b
    ensures a < b ==> r == -1
    ensures b < a ==> r == 1
  {
    if |a| == 0 then (if |b| == 0 then 0 else -1)
    else if |b| == 0 then 1
    else if a[0] < b[0] then -1
    else if a[0] > b[0] then 1
    else
      assert a == [a[0]] + a[1..] && b == [b[0]] + b[1..];
      Compare(a[1..], b[1..])
  }

  /** `KeyValuePair.Less`: the left key sorts strictly before the right one. */
  predicate Less(a: seq<byte>, b: seq<byte>)
  {
    Compare(a, b) == -1
  }

  /** The first byte at which two keys differ decides their order. */
  lemma {:induction false} CompareFirstDifference(a: seq<byte>, b: seq<byte>, i: nat)
    requires i < |a| && i < |b| && a[..i] == b[..i] && a[i] != b[i]
    ensures Compare(a, b) == if a[i] < b[i] then -1 else 1
  {
    if i > 0 {
      assert a[0] == a[..i][0] == b[..i][0] == b[0];
      assert a[1..][..i - 1] == a[..i][1..];
      assert b[1..][..i - 1] == b[..i][1..];
      CompareFirstDifference(a[1..], b[1..], i - 1);
    }
  }

  lemma {:induction false} CompareAntisymmetric(a: seq<byte>, b: seq<byte>)
    ensures Compare(b, a) == -Compare(a, b)
  {
    if |a| > 0 && |b| > 0 && a[0] == b[0] {
      CompareAntisymmetric(a[1..], b[1..]);
    }
  }

  lemma LessIrreflexive(a: seq<byte>)
    ensures !Less(a, a)
  {
  }

  lemma LessAsymmetric(a: seq<byte>, b: seq<byte>)
    requires Less(a, b)
    ensures !Less(b, a)
  {
    CompareAntisymmetric(a, b);
  }

  lemma {:induction false} LessTransitive(a: seq<byte>, b: seq<byte>, c: seq<byte>)
    requires Less(a, b) && Less(b, c)
    ensures Less(a, c)
  {
    if |a| > 0 && |b| > 0 && |c| > 0 && a[0] == b[0] && b[0] == c[0] {
      LessTransitive(a[1..], b[1..], c[1..]);
    }
  }

  /** Exactly one of `a == b`, `Less(a, b)`, `Less(b, a)` holds. */
  lemma LessTrichotomy(a: seq<byte>, b: seq<byte>)
    ensures a == b ==> !Less(a, b) && !Less(b, a)
    ensures a != b ==> (Less(a, b) <==> !Less(b, a))
  {
    CompareAntisymmetric(a, b);
  }

  /** `m` is the smallest key of `s`. */
  predicate IsLeast(m: seq<byte>, s: set<seq<byte>>)
  {
    m in s && forall x :: x in s && x != m ==> Less(m, x)
  }

  lemma {:induction false} LeastExists(s: set<seq<byte>>)
    requires s != {}
    ensures exists m :: IsLeast(m, s)
    decreases s
  {
    var x :| x in s;
    if s == {x} {
      assert IsLeast(x, s);
    } else {
      var rest := s - {x};
      LeastExists(rest);
      var m :| IsLeast(m, rest);
      LessTrichotomy(x, m);
      if Less(x, m) {
        forall y | y in s && y != x
          ensures Less(x, y)
        {
          if y != m {
            LessTransitive(x, m, y);
          }
        }
        assert IsLeast(x, s);
      } else {
        assert IsLeast(m, s);
      }
    }
  }

  lemma LeastUnique(s: set<seq<byte>>)
    ensures forall a, b :: IsLeast(a, s) && IsLeast(b, s) ==> a == b
  {
    forall a, b | IsLeast(a, s) && IsLeast(b, s)
      ensures a == b
    {
      if a != b {
        LessAsymmetric(a, b);
      }
    }
  }

  /** The smallest key of a non-empty set: where an ascending traversal starts. */
  function Least(s: set<seq<byte>>): (m: seq<byte>)
    requires s != {}
    ensures m in s
    ensures forall x :: x in s && x != m ==> Less(m, x)
  {
    LeastExists(s);
    LeastUnique(s);
    var m :| m in s && IsLeast(m, s);
    m
  }
}
