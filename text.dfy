/**
 * String helpers the cleaner relies on: substring search as `strpos` does it,
 * and the byte-wise ordering `ksort` applies to string keys.
 */
module Text {

  /** `t` occurs in `s` starting at index `i`. */
  predicate StartsAt(s: string, i: nat, t: string) {
    i + |t| <= |s| && s[i..i + |t|] == t
  }

  /** `strpos($s, $t) !== false`: `t` occurs somewhere in `s`. */
  predicate Occurs(t: string, s: string) {
    exists i | 0 <= i <= |s| - |t| :: StartsAt(s, i, t)
  }

  /** Lexicographic order on strings, comparing characters by code; a proper prefix is smaller. */
  predicate Less(a: string, b: string) {
    if a == [] then b != []
    else if b == [] then false
    else a[0] < b[0] || (a[0] == b[0] && Less(a[1..], b[1..]))
  }

  predicate LessEq(a: string, b: string) {
    a == b || Less(a, b)
  }

  lemma {:induction false} LessIrreflexive(a: string)
    ensures !Less(a, a)
  {
    if a != [] {
      LessIrreflexive(a[1..]);
    }
  }

  lemma {:induction false} LessTransitive(a: string, b: string, c: string)
    requires Less(a, b) && Less(b, c)
    ensures Less(a, c)
  {
    if a != [] && b != [] && c != [] && a[0] == b[0] == c[0] {
      LessTransitive(a[1..], b[1..], c[1..]);
    }
  }

  lemma {:induction false} LessTotal(a: string, b: string)
    requires a != b
    ensures Less(a, b) || Less(b, a)
  {
    if a != [] && b != [] && a[0] == b[0] {
      assert a == [a[0]] + a[1..] && b == [b[0]] + b[1..];
      LessTotal(a[1..], b[1..]);
    }
  }

  lemma LessAsymmetric(a: string, b: string)
    requires Less(a, b)
    ensures !Less(b, a)
  {
    if Less(b, a) {
      LessTransitive(a, b, a);
      LessIrreflexive(a);
    }
  }

  lemma LessEqTransitive(a: string, b: string, c: string)
    requires LessEq(a, b) && LessEq(b, c)
    ensures LessEq(a, c)
  {
    if a != b && b != c {
      LessTransitive(a, b, c);
    }
  }

  /** Every key of a strictly ascending sequence is smaller than every later key. */
  predicate Ascending(ks: seq<string>) {
    forall i, j :: 0 <= i < j < |ks| ==> Less(ks[i], ks[j])
  }

  /** `k` is the smallest element of `ks`. */
  predicate IsLeast(k: string, ks: set<string>) {
    k in ks && forall j :: j in ks ==> LessEq(k, j)
  }

  lemma {:induction false} LeastExists(ks: set<string>)
    requires ks != {}
    ensures exists k :: IsLeast(k, ks)
    decreases ks
  {
    var x :| x in ks;
    var rest := ks - {x};
    if rest == {} {
      assert ks == {x};
      assert IsLeast(x, ks);
    } else {
      LeastExists(rest);
      var m :| IsLeast(m, rest);
      if Less(x, m) {
        forall j | j in ks ensures LessEq(x, j) {
          if j != x { LessEqTransitive(x, m, j); }
        }
        assert IsLeast(x, ks);
      } else {
        if x != m { LessTotal(x, m); }
        assert IsLeast(m, ks);
      }
    }
  }

  lemma LeastUnique(k1: string, k2: string, ks: set<string>)
    requires IsLeast(k1, ks) && IsLeast(k2, ks)
    ensures k1 == k2
  {
    if k1 != k2 {
      LessAsymmetric(k1, k2);
    }
  }

  /** The elements of `ks` in ascending order. */
  ghost function SortedKeys(ks: set<string>): (r: seq<string>)
    ensures Ascending(r)
    ensures forall k :: k in r <==> k in ks
    ensures |r| == |ks|
    decreases ks
  {
    if ks == {} then []
    else
      LeastExists(ks);
      var k :| IsLeast(k, ks);
      var rest := SortedKeys(ks - {k});
      assert forall j :: j in rest ==> Less(k, j);
      [k] + rest
  }

  lemma HeadIn(a: seq<string>)
    requires a != []
    ensures a[0] in a
  {
  }

  /** Two ascending sequences with the same elements are equal. */
  lemma {:induction false} AscendingUnique(a: seq<string>, b: seq<string>)
    requires Ascending(a) && Ascending(b)
    requires forall k :: k in a <==> k in b
    ensures a == b
    decreases |a|
  {
    if a == [] || b == [] {
      if a != [] {
        HeadIn(a);
        assert false;
      } else if b != [] {
        HeadIn(b);
        assert false;
      }
    } else {
      assert IsLeast(a[0], set k | k in a) by {
        forall j | j in a ensures LessEq(a[0], j) {
          var i :| 0 <= i < |a| && a[i] == j;
        }
      }
      assert IsLeast(b[0], set k | k in a) by {
        forall j | j in b ensures LessEq(b[0], j) {
          var i :| 0 <= i < |b| && b[i] == j;
        }
      }
      LeastUnique(a[0], b[0], set k | k in a);
      forall k ensures k in a[1..] <==> k in b[1..] {
        if k in a[1..] {
          var i :| 0 <= i < |a| - 1 && a[1..][i] == k;
          assert Less(a[0], a[i + 1]);
          LessIrreflexive(a[0]);
          assert k in b && k != b[0];
          var i' :| 0 <= i' < |b| && b[i'] == k;
          assert i' != 0 && b[1..][i' - 1] == k;
        }
        if k in b[1..] {
          var i :| 0 <= i < |b| - 1 && b[1..][i] == k;
          assert Less(b[0], b[i + 1]);
          LessIrreflexive(b[0]);
          assert k in a && k != a[0];
          var i' :| 0 <= i' < |a| && a[i'] == k;
          assert i' != 0 && a[1..][i' - 1] == k;
        }
      }
      AscendingUnique(a[1..], b[1..]);
      assert a == [a[0]] + a[1..] && b == [b[0]] + b[1..];
    }
  }
}
