/** Splitting strings, paths in normal form, and padding. */
module Text {

  /** str::split on one character: always at least one piece. */
  function Split(s: string, c: char): (r: seq<string>)
    ensures r != []
  {
    if s == "" then [""]
    else
      var r := Split(s[1..], c);
      if s[0] == c then [""] + r else [[s[0]] + r[0]] + r[1..]
  }

  lemma {:induction false} SplitWhole(s: string, c: char)
    requires c !in s
    ensures Split(s, c) == [s]
  {
    if s != "" {
      SplitWhole(s[1..], c);
      assert [s[0]] + s[1..] == s;
      assert Split(s[1..], c)[1..] == [];
    }
  }

  lemma Regroup(x: seq<string>, y: seq<string>, a: char)
    requires x != []
    ensures [""] + (x + y) == ([""] + x) + y
    ensures [[a] + (x + y)[0]] + (x + y)[1..] == ([[a] + x[0]] + x[1..]) + y
  {
    assert (x + y)[1..] == x[1..] + y;
  }

  lemma {:induction false} SplitAt(a: string, c: char, b: string)
    ensures Split(a + [c] + b, c) == Split(a, c) + Split(b, c)
  {
    if a == "" {
      assert a + [c] + b == [c] + b;
      assert ([c] + b)[1..] == b;
    } else {
      SplitAt(a[1..], c, b);
      assert (a + [c] + b)[1..] == a[1..] + [c] + b;
      var x, y := Split(a[1..], c), Split(b, c);
      Regroup(x, y, a[0]);
    }
  }

  lemma {:induction false} SplitPieces(s: string, c: char, p: string)
    requires p in Split(s, c)
    ensures c !in p && forall x | x in p :: x in s
  {
    if s != "" {
      var r := Split(s[1..], c);
      if s[0] == c {
        if p != "" {
          SplitPieces(s[1..], c, p);
        }
      } else if p == [s[0]] + r[0] {
        SplitPieces(s[1..], c, r[0]);
      } else {
        SplitPieces(s[1..], c, p);
      }
    }
  }

  function NonEmpty(ps: seq<string>): seq<string> {
    if ps == [] then [] else (if ps[0] == "" then [] else [ps[0]]) + NonEmpty(ps[1..])
  }

  function Join(ps: seq<string>, c: char): string {
    if ps == [] then "" else if |ps| == 1 then ps[0] else ps[0] + [c] + Join(ps[1..], c)
  }

  /** norm_path: no empty components. */
  function Norm(path: string): string { Join(NonEmpty(Split(path, '/')), '/') }

  ghost predicate AreComponents(ps: seq<string>) {
    forall p | p in ps :: p != "" && '/' !in p
  }

  lemma {:induction false} NonEmptyKeeps(ps: seq<string>)
    ensures forall p :: p in NonEmpty(ps) <==> p in ps && p != ""
    ensures "" !in ps ==> NonEmpty(ps) == ps
  {
    if ps != [] {
      NonEmptyKeeps(ps[1..]);
      assert ps == [ps[0]] + ps[1..];
      assert forall p | p in ps[1..] :: p in ps;
    }
  }

  lemma {:induction false} SplitJoin(ps: seq<string>)
    requires AreComponents(ps) && ps != []
    ensures Split(Join(ps, '/'), '/') == ps
  {
    SplitWhole(ps[0], '/');
    if |ps| > 1 {
      SplitAt(ps[0], '/', Join(ps[1..], '/'));
      assert forall p | p in ps[1..] :: p in ps;
      SplitJoin(ps[1..]);
    }
  }

  lemma NormIsNormal(path: string)
    ensures Norm(Norm(path)) == Norm(path)
  {
    var all := Split(path, '/');
    var ps := NonEmpty(all);
    NonEmptyKeeps(all);
    forall p | p in ps ensures '/' !in p { SplitPieces(path, '/', p); }
    if ps != [] {
      SplitJoin(ps);
      NonEmptyKeeps(ps);
    }
  }

  lemma {:induction false} NonEmptyConcat(a: seq<string>, b: seq<string>)
    ensures NonEmpty(a + b) == NonEmpty(a) + NonEmpty(b)
  {
    if a == [] {
      assert a + b == b;
    } else {
      assert (a + b)[1..] == a[1..] + b;
      NonEmptyConcat(a[1..], b);
    }
  }

  /** What makes the normal form of any path: components joined by single slashes stay, and slashes that are in front,
      at the end or doubled do not count. */
  lemma {:induction false} NormLaws(ps: seq<string>, a: string, b: string)
    ensures AreComponents(ps) ==> Norm(Join(ps, '/')) == Join(ps, '/')
    ensures Norm("/" + a) == Norm(a) == Norm(a + "/")
    ensures Norm(a + "//" + b) == Norm(a + "/" + b)
  {
    hide NonEmpty, Split, Join, AreComponents;
    if AreComponents(ps) {
      JoinedIsNormal(ps);
    }
    SlashAtEnd(a);
    SlashBetween(a, b);
    SlashBetween(a, "/" + b);
    SlashAtEnd(b);
    assert a + "/" + ("/" + b) == a + "//" + b;
  }

  lemma {:induction false} JoinedIsNormal(ps: seq<string>)
    requires AreComponents(ps)
    ensures Norm(Join(ps, '/')) == Join(ps, '/')
  {
    NonEmptyKeeps(ps);
    if ps != [] {
      SplitJoin(ps);
    }
  }

  /** The components of a path, with a slash in front or at its end. */
  lemma {:induction false} SlashAtEnd(a: string)
    ensures NonEmpty(Split("/" + a, '/')) == NonEmpty(Split(a, '/')) == NonEmpty(Split(a + "/", '/'))
  {
    assert NonEmpty(Split("", '/')) == [];
    SlashBetween("", a);
    SlashBetween(a, "");
    assert "" + "/" + a == "/" + a && a + "/" + "" == a + "/";
  }

  lemma {:induction false} SlashBetween(a: string, b: string)
    ensures NonEmpty(Split(a + "/" + b, '/')) == NonEmpty(Split(a, '/')) + NonEmpty(Split(b, '/'))
  {
    SplitAt(a, '/', b);
    NonEmptyConcat(Split(a, '/'), Split(b, '/'));
  }

  lemma {:induction false} JoinChars(ps: seq<string>, c: char, x: char)
    requires x in Join(ps, c)
    ensures x == c || exists p | p in ps :: x in p
  {
    if |ps| > 1 && x !in ps[0] && x != c {
      JoinChars(ps[1..], c, x);
    }
  }

  lemma NormChars(path: string, x: char)
    requires x in Norm(path) && x != '/'
    ensures x in path
  {
    var all := Split(path, '/');
    JoinChars(NonEmpty(all), '/', x);
    NonEmptyKeeps(all);
    var p :| p in NonEmpty(all) && x in p;
    SplitPieces(path, '/', p);
  }

  predicate StartsWith(s: string, prefix: string) { prefix <= s }

  predicate EndsWith(s: string, suffix: string) {
    |s| >= |suffix| && s[|s| - |suffix|..] == suffix
  }
}
