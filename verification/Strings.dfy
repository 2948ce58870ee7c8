/** The order of strings, and sorted lists of them. */
module Strings {

  predicate SmallerAt(a: string, b: string, k: nat) {
    k < |a| && k < |b| && (forall i | 0 <= i < k :: a[i] == b[i]) && a[k] < b[k]
  }

  predicate Less(a: string, b: string) {
    a < b || exists k: nat | k < |a| :: SmallerAt(a, b, k)
  }

  ghost predicate Sorted(names: seq<string>) {
    forall i, j | 0 <= i < j < |names| :: Less(names[i], names[j])
  }

  lemma LessAsymmetric(a: string, b: string)
    requires Less(a, b)
    ensures !Less(b, a)
  {
    if !(a < b) {
      var k: nat :| k < |a| && SmallerAt(a, b, k);
      assert forall m: nat | SmallerAt(b, a, m) :: k < m || m < k;
    }
  }

  lemma LessTransitive(a: string, b: string, c: string)
    requires Less(a, b) && Less(b, c)
    ensures Less(a, c)
  {
    if a < b {
      if !(b < c) {
        var m: nat :| m < |b| && SmallerAt(b, c, m);
        if m < |a| {
          assert a[m] == b[m] && forall i | 0 <= i < m :: a[i] == b[i] == c[i];
          assert SmallerAt(a, c, m);
        } else {
          assert forall i | 0 <= i < |a| :: a[i] == b[i] == c[i];
        }
      }
    } else {
      var k: nat :| k < |a| && SmallerAt(a, b, k);
      if b < c {
        assert c[k] == b[k] && forall i | 0 <= i < k :: a[i] == b[i] == c[i];
        assert SmallerAt(a, c, k);
      } else {
        var m: nat :| m < |b| && SmallerAt(b, c, m);
        assert SmallerAt(a, c, if k < m then k else m);
      }
    }
  }

  lemma {:induction false} SameUpTo(a: string, b: string, k: nat)
    requires k <= |a| && k <= |b| && a[..k] == b[..k]
    ensures a == b || Less(a, b) || Less(b, a)
    decreases |a| - k
  {
    if k < |a| && k < |b| {
      if a[k] == b[k] {
        assert a[..k + 1] == a[..k] + [a[k]] && b[..k + 1] == b[..k] + [b[k]];
        SameUpTo(a, b, k + 1);
      } else {
        assert forall i | 0 <= i < k :: a[i] == a[..k][i] == b[..k][i] == b[i];
        assert SmallerAt(a, b, k) || SmallerAt(b, a, k);
      }
    } else {
      assert a == a[..k] + a[k..] && b == b[..k] + b[k..];
    }
  }

  /** A strict total order. */
  lemma LessTotal(a: string, b: string)
    ensures a == b || Less(a, b) || Less(b, a)
    ensures !Less(a, a)
  {
    SameUpTo(a, b, 0);
    if Less(a, a) {
      LessAsymmetric(a, a);
    }
  }

  lemma {:induction false} LeastOf(ids: set<string>) returns (least: string)
    requires ids != {}
    ensures least in ids && forall id | id in ids && id != least :: Less(least, id)
  {
    least :| least in ids;
    var rest := ids - {least};
    if rest != {} {
      var other := LeastOf(rest);
      LessTotal(least, other);
      forall id | id in rest && id != other ensures Less(least, other) ==> Less(least, id) {
        if Less(least, other) {
          LessTransitive(least, other, id);
        }
      }
      least := if Less(least, other) then least else other;
    }
  }

  lemma SomeElement(a: seq<string>)
    requires a != []
    ensures exists x :: x in a
  {
    assert a[0] in a;
  }

  /** A sorted list is determined by its elements. */
  lemma {:induction false} SortedUnique(a: seq<string>, b: seq<string>)
    requires Sorted(a) && Sorted(b) && forall x :: x in a <==> x in b
    ensures a == b
  {
    if a == [] {
      if b != [] {
        SomeElement(b);
      }
    } else if b == [] {
      SomeElement(a);
    } else {
      SmallestIsFirst(a, b);
      forall x ensures x in a[1..] <==> x in b[1..] {
        TailWithout(a, x);
        TailWithout(b, x);
      }
      SortedUnique(a[1..], b[1..]);
      assert a == [a[0]] + a[1..] && b == [b[0]] + b[1..];
    }
  }

  lemma SmallestIsFirst(a: seq<string>, b: seq<string>)
    requires Sorted(a) && Sorted(b) && forall x :: x in a <==> x in b
    requires a != [] && b != []
    ensures a[0] == b[0]
  {
    assert a[0] in b && b[0] in a;
    var i, j :| 0 <= i < |b| && b[i] == a[0] && 0 <= j < |a| && a[j] == b[0];
    if i > 0 && j > 0 {
      LessAsymmetric(a[0], b[0]);
    }
  }

  lemma TailWithout(a: seq<string>, x: string)
    requires Sorted(a) && a != []
    ensures x in a[1..] <==> x in a && x != a[0]
  {
    assert a == [a[0]] + a[1..];
    if x in a[1..] {
      var i :| 0 <= i < |a| - 1 && a[1..][i] == x;
      assert Less(a[0], a[i + 1]);
      LessAsymmetric(a[0], x);
    }
  }
}
