/** The order in which a BTreeMap keyed by strings is iterated. */
module NameOrder {

  predicate Less(a: string, b: string) {
    if b == "" then false
    else if a == "" then true
    else if a[0] != b[0] then a[0] < b[0]
    else Less(a[1..], b[1..])
  }

  /** The two differ first at this place, or one ends there. */
  predicate IsLessAt(a: string, b: string, k: nat) {
    k <= |a| && k < |b| && a[..k] == b[..k] && (k == |a| || a[k] < b[k])
  }

  lemma {:induction false} LessIsFirstDifference(a: string, b: string)
    ensures Less(a, b) <==> exists k: nat :: IsLessAt(a, b, k)
  {
    if a != "" && b != "" && a[0] == b[0] {
      LessIsFirstDifference(a[1..], b[1..]);
      if k: nat :| IsLessAt(a[1..], b[1..], k) {
        assert a[..k + 1] == [a[0]] + a[1..][..k] && b[..k + 1] == [b[0]] + b[1..][..k];
        assert IsLessAt(a, b, k + 1);
      }
      if k: nat :| IsLessAt(a, b, k) {
        assert a[1..][..k - 1] == a[..k][1..] && b[1..][..k - 1] == b[..k][1..];
        assert IsLessAt(a[1..], b[1..], k - 1);
      }
    } else if a == "" && b != "" {
      assert IsLessAt(a, b, 0);
    } else if b != "" && a[0] < b[0] {
      assert IsLessAt(a, b, 0);
    } else {
      forall k: nat ensures !IsLessAt(a, b, k) {
        if b != "" && 0 < k <= |a| && k < |b| {
          assert a[..k][0] != b[..k][0];
        }
      }
    }
  }

  lemma {:induction false} LessIsStrict(a: string)
    ensures !Less(a, a)
  {
    if a != "" {
      LessIsStrict(a[1..]);
    }
  }

  lemma {:induction false} LessIsTotal(a: string, b: string)
    ensures Less(a, b) || Less(b, a) || a == b
  {
    if a != "" && b != "" && a[0] == b[0] {
      LessIsTotal(a[1..], b[1..]);
      assert a == [a[0]] + a[1..] && b == [b[0]] + b[1..];
    }
  }

  lemma {:induction false} LessIsTransitive(a: string, b: string, c: string)
    requires Less(a, b) && Less(b, c)
    ensures Less(a, c)
  {
    if a != "" && a[0] == b[0] == c[0] {
      LessIsTransitive(a[1..], b[1..], c[1..]);
    }
  }

  predicate IsLeast(m: string, s: set<string>) {
    m in s && forall x | x in s && x != m :: Less(m, x)
  }

  lemma {:induction false} LeastExists(s: set<string>) returns (m: string)
    requires s != {}
    ensures IsLeast(m, s)
    decreases s
  {
    m :| m in s;
    if s != {m} {
      assert s - {m} != {} by {
        var x :| x in s && x != m;
      }
      var k := LeastExists(s - {m});
      LessIsTotal(m, k);
      if Less(k, m) {
        m := k;
      } else {
        forall x | x in s && x != m && x != k ensures Less(m, x) {
          LessIsTransitive(m, k, x);
        }
      }
    }
  }

  lemma LeastIsUnique(m: string, k: string, s: set<string>)
    requires IsLeast(m, s) && IsLeast(k, s)
    ensures m == k
  {
    if m != k {
      LessIsTransitive(m, k, m);
      LessIsStrict(m);
    }
  }

  /** The elements in iteration order. */
  ghost function Sorted(s: set<string>): seq<string>
    decreases s
  {
    if s == {} then []
    else
      assert exists m :: IsLeast(m, s) by { var m := LeastExists(s); }
      var m :| IsLeast(m, s);
      [m] + Sorted(s - {m})
  }

  ghost predicate IsAscending(xs: seq<string>) {
    forall i, j | 0 <= i < j < |xs| :: Less(xs[i], xs[j])
  }

  lemma {:induction false} SortedElements(s: set<string>)
    ensures forall x :: x in Sorted(s) <==> x in s
    decreases s
  {
    if s != {} {
      SortedElements(s - {Sorted(s)[0]});
    }
  }

  lemma {:induction false} SortedIsAscending(s: set<string>)
    ensures IsAscending(Sorted(s))
    decreases s
  {
    if s != {} {
      var m := Sorted(s)[0];
      SortedIsAscending(s - {m});
      SortedElements(s - {m});
      forall j | 0 < j < |Sorted(s)| ensures Less(m, Sorted(s)[j]) {
        assert Sorted(s)[j] == Sorted(s - {m})[j - 1];
        assert Sorted(s)[j] in s - {m};
      }
    }
  }

  /** Taking the least element is taking the next one. */
  lemma {:induction false} SortedNext(s: set<string>, m: string)
    requires IsLeast(m, s)
    ensures Sorted(s) == [m] + Sorted(s - {m})
  {
    LeastIsUnique(m, Sorted(s)[0], s);
  }

  lemma LeastIsMember(m: string, s: set<string>)
    requires IsLeast(m, s)
    ensures m in s
  {
  }

  lemma SortedNone()
    ensures Sorted({}) == []
  {
  }

  /** Iterator::next over a sorted set. */
  method Next(rest: set<string>) returns (n: string)
    requires rest != {}
    ensures IsLeast(n, rest)
  {
    ghost var m := LeastExists(rest);
    n :| n in rest && IsLeast(n, rest);
  }
}
