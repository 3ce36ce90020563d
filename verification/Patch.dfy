/**
  Removing mount options from fstab files in place (native/src/boot/patch.rs).  A byte is a char.
 */
module Patch {
  import opened Wrappers

  const VERITY: seq<string> := ["verifyatboot", "verify", "avb_keys", "avb", "support_scfs", "fsverity"]
  const ENCRYPTION: seq<string> := ["forceencrypt", "forcefdeorfbe", "fileencryption"]

  // ---- match_patterns! ----

  /** The first listed pattern the text starts with. */
  function FirstPrefix(b: string, pats: seq<string>): Option<string> {
    if pats == [] then None
    else if pats[0] <= b then Some(pats[0])
    else FirstPrefix(b, pats[1..])
  }

  predicate EndsValue(c: char) { c == ' ' || c == '\n' || c == '\0' }

  function ValueLength(b: string): (n: nat)
    ensures n <= |b|
  {
    if b == "" || EndsValue(b[0]) then 0 else 1 + ValueLength(b[1..])
  }

  /** How many bytes to remove at the front of the buffer. */
  function MatchPatterns(buf: string, pats: seq<string>): (r: Option<nat>)
    requires buf != ""
  {
    var comma := if buf[0] == ',' then 1 else 0;
    var b := buf[comma..];
    var found := if b == "" then None else FirstPrefix(b, pats);
    if found.None? then None
    else
      PrefixLength(b, pats);
      var len := comma + |found.value|;
      if len < |buf| && buf[len] == '=' then Some(len + ValueLength(buf[len..])) else Some(len)
  }

  lemma {:induction false} PrefixLength(b: string, pats: seq<string>)
    ensures FirstPrefix(b, pats).Some? ==> FirstPrefix(b, pats).value in pats && FirstPrefix(b, pats).value <= b
    ensures FirstPrefix(b, pats).None? ==> forall p | p in pats :: !(p <= b)
  {
    if pats != [] {
      PrefixLength(b, pats[1..]);
      assert forall p :: p in pats <==> p == pats[0] || p in pats[1..];
    }
  }

  /** A matcher as remove_pattern demands it: it takes at least one byte, and only what is there. */
  ghost predicate IsMatcher(m: string -> Option<nat>) {
    forall s | s != "" :: m(s).Some? ==> 0 < m(s).value <= |s|
  }

  // ---- remove_pattern ----

  /** Left to right deletion on the original bytes. */
  ghost function Kept(s: string, m: string -> Option<nat>): string
    requires IsMatcher(m)
  {
    if s == "" then ""
    else
      match m(s)
      case Some(len) => Kept(s[len..], m)
      case None => [s[0]] + Kept(s[1..], m)
  }

  lemma KeptStep(s: string, read: nat, m: string -> Option<nat>)
    requires IsMatcher(m) && read < |s|
    ensures m(s[read..]).Some? ==> 0 < m(s[read..]).value <= |s| - read
    ensures Kept(s[read..], m)
         == match m(s[read..])
            case Some(len) => Kept(s[read + len..], m)
            case None => [s[read]] + Kept(s[read + 1..], m)
  {
    var rest := s[read..];
    if m(rest).Some? {
      assert rest[m(rest).value..] == s[read + m(rest).value..];
    } else {
      assert rest[1..] == s[read + 1..];
    }
  }

  /** The buffer is scanned and overwritten at the same time. */
  method RemovePattern(buf: array<char>, m: string -> Option<nat>) returns (sz: nat)
    requires IsMatcher(m)
    modifies buf
    ensures sz == |Kept(old(buf[..]), m)| && sz <= buf.Length
    ensures buf[..sz] == Kept(old(buf[..]), m)
    ensures forall i | sz <= i < buf.Length :: buf[i] == '\0'
  {
    hide Kept, IsMatcher;
    ghost var s := buf[..];
    var write, read := 0, 0;
    sz := buf.Length;
    assert s[0..] == s;
    while read < buf.Length
      invariant 0 <= write <= read <= buf.Length && sz == buf.Length - (read - write)
      invariant buf[read..] == s[read..]
      invariant buf[..write] + Kept(s[read..], m) == Kept(s, m)
    {
      KeptStep(s, read, m);
      match m(buf[read..])
      case Some(len) =>
        assert buf[read + len..] == s[read + len..] by {
          assert buf[read..][len..] == s[read..][len..];
        }
        sz := sz - len;
        read := read + len;
      case None =>
        ghost var kept := buf[..write];
        assert buf[read] == buf[read..][0] == s[read];
        assert kept + ([s[read]] + Kept(s[read + 1..], m)) == (kept + [s[read]]) + Kept(s[read + 1..], m);
        buf[write] := buf[read];
        write := write + 1;
        read := read + 1;
        assert buf[..write] == kept + [s[read - 1]];
    }
    assert s[read..] == "";
    KeptNothing(m);
    Fill(buf, write);
  }

  lemma KeptNothing(m: string -> Option<nat>)
    requires IsMatcher(m)
    ensures Kept("", m) == ""
  {
  }

  method Fill(buf: array<char>, from: nat)
    requires from <= buf.Length
    modifies buf
    ensures buf[..from] == old(buf[..from])
    ensures forall i | from <= i < buf.Length :: buf[i] == '\0'
  {
    for i := from to buf.Length
      invariant buf[..from] == old(buf[..from])
      invariant forall k | from <= k < i :: buf[k] == '\0'
    {
      buf[i] := '\0';
    }
  }

  // ---- what is removed ----

  /** No earlier pattern is a prefix of a later one. */
  predicate LongestFirst(pats: seq<string>) {
    && (forall i | 0 <= i < |pats| :: pats[i] != "")
    && (forall i, j | 0 <= i < j < |pats| :: !(pats[i] <= pats[j]))
  }

  lemma TablesAreLongestFirst()
    ensures LongestFirst(VERITY) && LongestFirst(ENCRYPTION)
  {
    forall i, j | 0 <= i < j < |VERITY| ensures !(VERITY[i] <= VERITY[j]) {
      NotPrefix(VERITY[i], VERITY[j], if (i, j) == (0, 1) then 6 else if (i, j) == (2, 3) then 3 else 0);
    }
    forall i, j | 0 <= i < j < |ENCRYPTION| ensures !(ENCRYPTION[i] <= ENCRYPTION[j]) {
      NotPrefix(ENCRYPTION[i], ENCRYPTION[j], if (i, j) == (0, 1) then 5 else 1);
    }
  }

  lemma NotPrefix(a: string, b: string, k: nat)
    requires k < |a| && (k < |b| ==> a[k] != b[k])
    ensures !(a <= b)
  {
  }

  lemma {:induction false} FirstIsLongest(b: string, pats: seq<string>, q: string)
    requires LongestFirst(pats) && q in pats && q <= b
    ensures FirstPrefix(b, pats).Some? && |q| <= |FirstPrefix(b, pats).value|
  {
    if pats[0] <= b {
      assert |pats[0]| <= |q| ==> pats[0] <= q;
    } else {
      FirstIsLongest(b, pats[1..], q);
    }
  }

  lemma {:induction false} ValueEnds(b: string)
    ensures forall i | 0 <= i < ValueLength(b) :: !EndsValue(b[i])
    ensures ValueLength(b) < |b| ==> EndsValue(b[ValueLength(b)])
  {
    if b != "" && !EndsValue(b[0]) {
      ValueEnds(b[1..]);
    }
  }

  /** The front of the text that is one option: an optional comma, the longest listed pattern, and
      with an equals sign everything up to a blank, a line end or a NUL. */
  ghost predicate IsOption(s: string, pats: seq<string>, len: nat) {
    var comma := if s != "" && s[0] == ',' then 1 else 0;
    exists p | p in pats ::
      && p <= s[comma..] && (forall q | q in pats && q <= s[comma..] :: |q| <= |p|)
      && IsValue(s, comma + |p|, len)
  }

  ghost predicate IsValue(s: string, from: nat, len: nat) {
    && from <= len <= |s|
    && if from < |s| && s[from] == '='
       then (forall i | from <= i < len :: s[i] !in {' ', '\n', '\0'}) && (len < |s| ==> s[len] in {' ', '\n', '\0'})
       else len == from
  }

  /** The matcher finds an option exactly when there is one, and takes all of it. */
  lemma MatchIsOption(s: string, pats: seq<string>)
    requires s != "" && LongestFirst(pats)
    ensures MatchPatterns(s, pats).Some? ==>
              0 < MatchPatterns(s, pats).value <= |s| && IsOption(s, pats, MatchPatterns(s, pats).value)
    ensures MatchPatterns(s, pats).None? ==> forall len :: !IsOption(s, pats, len)
  {
    var comma := if s[0] == ',' then 1 else 0;
    var b := s[comma..];
    PrefixLength(b, pats);
    var found := FirstPrefix(b, pats);
    if b != "" && found.Some? {
      var from := comma + |found.value|;
      var v := s[from..];
      ValueEnds(v);
      forall q | q in pats && q <= b ensures |q| <= |found.value| { FirstIsLongest(b, pats, q); }
      assert IsValue(s, from, MatchPatterns(s, pats).value);
    }
  }

  lemma {:induction false} KeptNoLonger(s: string, m: string -> Option<nat>)
    requires IsMatcher(m)
    ensures |Kept(s, m)| <= |s|
  {
    if s != "" {
      if m(s).Some? {
        KeptNoLonger(s[m(s).value..], m);
      } else {
        KeptNoLonger(s[1..], m);
      }
    }
  }

  /** The size stays the same exactly when nothing matched, and then neither did a byte change. */
  lemma {:induction false} SameSizeMeansUntouched(s: string, m: string -> Option<nat>)
    requires IsMatcher(m)
    ensures |Kept(s, m)| == |s| <==> forall i | 0 <= i < |s| :: m(s[i..]).None?
    ensures |Kept(s, m)| == |s| ==> Kept(s, m) == s
  {
    if s != "" {
      assert s[0..] == s;
      if m(s).Some? {
        KeptNoLonger(s[m(s).value..], m);
      } else {
        SameSizeMeansUntouched(s[1..], m);
        forall i | 0 < i < |s| ensures s[i..] == s[1..][i - 1..] {
        }
        assert forall j | 0 <= j < |s[1..]| :: s[1..][j..] == s[j + 1..];
        assert s == [s[0]] + s[1..];
      }
    }
  }

  /** The text cut into what is kept and what is removed. */
  datatype Segment = Keep(c: char) | Drop(option: string)

  ghost function Segments(s: string, m: string -> Option<nat>): seq<Segment>
    requires IsMatcher(m)
  {
    if s == "" then []
    else
      match m(s)
      case Some(len) => [Drop(s[..len])] + Segments(s[len..], m)
      case None => [Keep(s[0])] + Segments(s[1..], m)
  }

  ghost function TextOf(segments: seq<Segment>): string {
    if segments == [] then ""
    else (match segments[0] case Keep(c) => [c] case Drop(w) => w) + TextOf(segments[1..])
  }

  ghost function KeptOf(segments: seq<Segment>): string {
    if segments == [] then ""
    else (match segments[0] case Keep(c) => [c] case Drop(_) => "") + KeptOf(segments[1..])
  }

  lemma {:induction false} SegmentsCover(s: string, m: string -> Option<nat>)
    requires IsMatcher(m)
    ensures TextOf(Segments(s, m)) == s && KeptOf(Segments(s, m)) == Kept(s, m)
  {
    if s != "" {
      var n := if m(s).Some? then m(s).value else 1;
      SegmentsCover(s[n..], m);
      assert s == s[..n] + s[n..];
      assert Segments(s, m)[1..] == Segments(s[n..], m);
    }
  }

  /** What decides about a segment is the text from it on. */
  lemma {:induction false} SegmentAt(s: string, m: string -> Option<nat>, i: nat)
    requires IsMatcher(m) && i < |Segments(s, m)|
    ensures var rest := TextOf(Segments(s, m)[i..]);
            && rest != ""
            && match Segments(s, m)[i]
               case Drop(w) => m(rest) == Some(|w|) && w <= rest
               case Keep(c) => m(rest) == None && c == rest[0]
  {
    hide TextOf, KeptOf, Kept;
    var segs := Segments(s, m);
    var n := if m(s).Some? then m(s).value else 1;
    if i == 0 {
      assert segs[0..] == segs;
      SegmentsCover(s, m);
    } else {
      assert segs[1..] == Segments(s[n..], m);
      SegmentAt(s[n..], m, i - 1);
      assert segs[i..] == segs[1..][i - 1..];
    }
  }

  function PatternMatcher(pats: seq<string>): string -> Option<nat> {
    (b: string) => if b == "" then None else MatchPatterns(b, pats)
  }

  lemma PatternsAreMatcher(pats: seq<string>)
    requires LongestFirst(pats)
    ensures IsMatcher(PatternMatcher(pats))
  {
    hide MatchPatterns, LongestFirst, IsOption;
    forall s: string | s != "" ensures PatternMatcher(pats)(s).Some? ==> 0 < PatternMatcher(pats)(s).value <= |s| {
      MatchIsOption(s, pats);
    }
  }

  /** Patching keeps the other bytes in their order and drops whole options, each the longest that
      fits where it starts. */
  lemma {:induction false} PatchDropsOptions(s: string, pats: seq<string>, i: nat)
    requires LongestFirst(pats)
    ensures var m := PatternMatcher(pats);
            && IsMatcher(m)
            && TextOf(Segments(s, m)) == s && KeptOf(Segments(s, m)) == Kept(s, m)
            && (i < |Segments(s, m)| ==>
                  var rest := TextOf(Segments(s, m)[i..]);
                  match Segments(s, m)[i]
                  case Drop(w) => IsOption(rest, pats, |w|)
                  case Keep(_) => forall len :: !IsOption(rest, pats, len))
  {
    hide MatchPatterns, LongestFirst, IsOption, Segments, Kept, TextOf, KeptOf;
    var m := PatternMatcher(pats);
    PatternsAreMatcher(pats);
    SegmentsCover(s, m);
    if i < |Segments(s, m)| {
      SegmentAt(s, m, i);
      MatchIsOption(TextOf(Segments(s, m)[i..]), pats);
    }
  }

  method PatchVerity(buf: array<char>) returns (sz: nat)
    modifies buf
    ensures var m := PatternMatcher(["verifyatboot", "verify", "avb_keys", "avb", "support_scfs", "fsverity"]);
            IsMatcher(m) && sz <= buf.Length && buf[..sz] == Kept(old(buf[..]), m)
    ensures forall i | sz <= i < buf.Length :: buf[i] == '\0'
  {
    TablesAreLongestFirst();
    PatternsAreMatcher(VERITY);
    sz := RemovePattern(buf, PatternMatcher(VERITY));
  }

  method PatchEncryption(buf: array<char>) returns (sz: nat)
    modifies buf
    ensures var m := PatternMatcher(["forceencrypt", "forcefdeorfbe", "fileencryption"]);
            IsMatcher(m) && sz <= buf.Length && buf[..sz] == Kept(old(buf[..]), m)
    ensures forall i | sz <= i < buf.Length :: buf[i] == '\0'
  {
    TablesAreLongestFirst();
    PatternsAreMatcher(ENCRYPTION);
    sz := RemovePattern(buf, PatternMatcher(ENCRYPTION));
  }

  // ---- is the patched text free of options? ----

  /** Somewhere in the text an option starts. */
  ghost predicate HasOption(t: string, pats: seq<string>) {
    exists i | 0 <= i < |t| :: MatchPatterns(t[i..], pats).Some?
  }

  predicate HaveNoCommas(pats: seq<string>) { forall p | p in pats :: ',' !in p }

  lemma TablesHaveNoCommas()
    ensures HaveNoCommas(VERITY) && HaveNoCommas(ENCRYPTION) && forall p | p in VERITY + ENCRYPTION :: '=' !in p
  {
  }

  /** A pattern is an option, with or without a comma before it. */
  lemma OptionIsPattern(t: string, pats: seq<string>)
    requires LongestFirst(pats) && HaveNoCommas(pats)
    ensures HasOption(t, pats) <==> exists i, p | 0 <= i <= |t| && p in pats :: p <= t[i..]
  {
    if HasOption(t, pats) {
      var i :| 0 <= i < |t| && MatchPatterns(t[i..], pats).Some?;
      var comma := if t[i] == ',' then 1 else 0;
      assert t[i..][comma..] == t[i + comma..];
      PrefixLength(t[i + comma..], pats);
      assert FirstPrefix(t[i + comma..], pats).value in pats;
    }
    if i, p :| 0 <= i <= |t| && p in pats && p <= t[i..] {
      assert p != "" && t[i..][0] == p[0];
      FirstIsLongest(t[i..], pats, p);
      assert t[i..][0..] == t[i..];
      assert MatchPatterns(t[i..], pats).Some?;
    }
  }

  lemma {:induction false} KeptConcat(a: seq<Segment>, b: seq<Segment>)
    ensures KeptOf(a + b) == KeptOf(a) + KeptOf(b)
  {
    if a == [] {
      assert a + b == b;
    } else {
      assert (a + b)[0] == a[0] && (a + b)[1..] == a[1..] + b;
      KeptConcat(a[1..], b);
    }
  }

  lemma {:induction false} TextConcat(a: seq<Segment>, b: seq<Segment>)
    ensures TextOf(a + b) == TextOf(a) + TextOf(b)
  {
    if a == [] {
      assert a + b == b;
    } else {
      assert (a + b)[0] == a[0] && (a + b)[1..] == a[1..] + b;
      TextConcat(a[1..], b);
    }
  }

  /** The kept character at n, and the segment it is. */
  lemma {:induction false} KeptAt(segs: seq<Segment>, n: nat) returns (j: nat)
    requires n < |KeptOf(segs)|
    ensures j < |segs| && segs[j].Keep?
    ensures KeptOf(segs[..j]) == KeptOf(segs)[..n] && KeptOf(segs[j..]) == KeptOf(segs)[n..]
  {
    if segs[0].Keep? && n == 0 {
      j := 0;
      assert segs[0..] == segs;
    } else {
      var w := KeptOf(segs[..1]);
      assert segs == segs[..1] + segs[1..];
      KeptConcat(segs[..1], segs[1..]);
      assert segs[..1][1..] == [];
      var k := KeptAt(segs[1..], n - |w|);
      j := k + 1;
      assert segs[..j] == segs[..1] + segs[1..][..k] && segs[j..] == segs[1..][k..];
      KeptConcat(segs[..1], segs[1..][..k]);
    }
  }

  predicate HasDrop(segs: seq<Segment>) { exists d | 0 <= d < |segs| :: segs[d].Drop? }

  lemma {:induction false} AllKept(segs: seq<Segment>)
    requires !HasDrop(segs)
    ensures TextOf(segs) == KeptOf(segs)
  {
    if segs != [] {
      assert segs[0].Keep?;
      AllKept(segs[1..]);
    }
  }

  /** The pattern is made of kept characters from both sides of something removed. */
  ghost predicate Joins(segs: seq<Segment>, j: nat, k: nat, p: string) {
    && j < k <= |segs| && segs[j].Keep? && segs[k - 1].Keep?
    && HasDrop(segs[j..k]) && KeptOf(segs[j..k]) == p
  }

  /** A pattern among the kept characters that is not joined was there before, and would have gone. */
  lemma KeptPatternIsJoined(s: string, pats: seq<string>, i: nat, p: string) returns (j: nat, k: nat)
    requires LongestFirst(pats) && HaveNoCommas(pats) && IsMatcher(PatternMatcher(pats))
    requires p in pats && i <= |Kept(s, PatternMatcher(pats))| && p <= Kept(s, PatternMatcher(pats))[i..]
    ensures Joins(Segments(s, PatternMatcher(pats)), j, k, p)
  {
    hide Segments, Kept, KeptOf, TextOf, MatchPatterns, IsMatcher;
    var m := PatternMatcher(pats);
    var segs := Segments(s, m);
    SegmentsCover(s, m);
    assert p != "";
    j := KeptAt(segs, i);
    var rest := segs[j..];
    var last := KeptAt(rest, |p| - 1);
    k := j + last + 1;
    var window := segs[j..k];
    assert rest[..last + 1] == rest[..last] + [rest[last]] && window == rest[..last + 1];
    KeptConcat(rest[..last], [rest[last]]);
    KeptConcat(window, segs[k..]);
    TextConcat(window, segs[k..]);
    assert rest == window + segs[k..];
    OneKept(rest[last]);
    assert KeptOf(window) == p;
    if !HasDrop(window) {
      AllKept(window);
      SegmentAt(s, m, j);
      PatternMatches(TextOf(rest), pats, p);
    }
  }

  lemma OneKept(k: Segment)
    requires k.Keep?
    ensures |KeptOf([k])| == 1
  {
  }

  lemma PatternMatches(t: string, pats: seq<string>, p: string)
    requires LongestFirst(pats) && HaveNoCommas(pats) && p in pats && p <= t
    ensures PatternMatcher(pats)(t).Some?
  {
    assert p != "" && t[0] == p[0];
    FirstIsLongest(t, pats, p);
    assert t[0..] == t;
  }

  lemma JoinedIsKept(segs: seq<Segment>, j: nat, k: nat, p: string) returns (i: nat)
    requires Joins(segs, j, k, p)
    ensures i <= |KeptOf(segs)| && p <= KeptOf(segs)[i..]
  {
    hide KeptOf, HasDrop;
    i := |KeptOf(segs[..j])|;
    assert segs == segs[..j] + segs[j..k] + segs[k..];
    KeptConcat(segs[..j], segs[j..k]);
    KeptConcat(segs[..j] + segs[j..k], segs[k..]);
    assert KeptOf(segs)[i..] == p + KeptOf(segs[k..]);
  }

  ghost predicate HasJoin(segs: seq<Segment>, pats: seq<string>) {
    exists j: nat, k: nat, p | p in pats :: Joins(segs, j, k, p)
  }

  /** The patched text is free of options exactly when no pattern is joined from both sides of a removed option. */
  lemma {:induction false} PatchedIsFree(s: string, pats: seq<string>)
    requires LongestFirst(pats) && HaveNoCommas(pats)
    ensures IsMatcher(PatternMatcher(pats))
    ensures HasOption(Kept(s, PatternMatcher(pats)), pats) <==> HasJoin(Segments(s, PatternMatcher(pats)), pats)
  {
    hide Segments, Kept, KeptOf, TextOf, MatchPatterns, IsMatcher, HasOption, LongestFirst, HaveNoCommas, Joins;
    PatternsAreMatcher(pats);
    var m := PatternMatcher(pats);
    var t, segs := Kept(s, m), Segments(s, m);
    OptionIsPattern(t, pats);
    SegmentsCover(s, m);
    if HasOption(t, pats) {
      var i, p :| 0 <= i <= |t| && p in pats && p <= t[i..];
      var j, k := KeptPatternIsJoined(s, pats, i, p);
    }
    if HasJoin(segs, pats) {
      var j: nat, k: nat, p :| p in pats && Joins(segs, j, k, p);
      var i := JoinedIsKept(segs, j, k, p);
    }
  }

  /** It is free when after each removed option the text goes on with another one, ends, or has a character that is
      in no pattern. */
  lemma {:induction false} SeparatedIsFree(s: string, pats: seq<string>)
    requires LongestFirst(pats) && HaveNoCommas(pats) && IsMatcher(PatternMatcher(pats))
    requires IsSeparated(Segments(s, PatternMatcher(pats)), pats)
    ensures !HasOption(Kept(s, PatternMatcher(pats)), pats)
  {
    hide Segments, Kept, KeptOf, HasOption, LongestFirst, HaveNoCommas, IsMatcher;
    PatchedIsFree(s, pats);
    var segs := Segments(s, PatternMatcher(pats));
    if HasJoin(segs, pats) {
      var j: nat, k: nat, p :| p in pats && Joins(segs, j, k, p);
      NothingJoins(segs, pats, j, k, p);
    }
  }

  /** The same, said of the text: what follows each place where an option starts. */
  lemma {:induction false} SeparatedTextIsFree(s: string, pats: seq<string>)
    requires LongestFirst(pats) && HaveNoCommas(pats) && IsSeparatedText(s, pats)
    ensures IsMatcher(PatternMatcher(pats)) && !HasOption(Kept(s, PatternMatcher(pats)), pats)
  {
    hide Segments, Kept, KeptOf, HasOption, LongestFirst, HaveNoCommas, IsMatcher, MatchPatterns;
    PatternsAreMatcher(pats);
    SegmentsAreSeparated(s, pats);
    SeparatedIsFree(s, pats);
  }

  /** Behind every option comes the end, another option, or a character that is in no pattern. */
  ghost predicate IsSeparatedText(s: string, pats: seq<string>) {
    var m := PatternMatcher(pats);
    forall i | 0 <= i < |s| && m(s[i..]).Some? :: IsEndedBy(s[i..], m(s[i..]).value, pats)
  }

  predicate IsEndedBy(s: string, len: nat, pats: seq<string>) {
    len >= |s| || Separates(s[len], pats) || PatternMatcher(pats)(s[len..]).Some?
  }

  lemma {:induction false} SegmentsAreSeparated(s: string, pats: seq<string>)
    requires IsMatcher(PatternMatcher(pats)) && IsSeparatedText(s, pats)
    ensures IsSeparated(Segments(s, PatternMatcher(pats)), pats)
    decreases |s|
  {
    hide MatchPatterns;
    if s != "" {
      var m := PatternMatcher(pats);
      assert s[0..] == s;
      var n := if m(s).Some? then m(s).value else 1;
      var rest := s[n..];
      forall i | 0 <= i < |rest| && m(rest[i..]).Some? ensures IsEndedBy(rest[i..], m(rest[i..]).value, pats) {
        assert rest[i..] == s[n + i..];
      }
      SegmentsAreSeparated(rest, pats);
      var segs := Segments(s, m);
      assert segs[1..] == Segments(rest, m);
      forall d | 0 <= d < |segs| - 1 && segs[d].Drop? && segs[d + 1].Keep? ensures Separates(segs[d + 1].c, pats) {
        if d == 0 {
          assert segs[1] == Segments(rest, m)[0] && rest != "" && rest[0] == s[n];
        } else {
          assert segs[d] == segs[1..][d - 1] && segs[d + 1] == segs[1..][d];
        }
      }
    }
  }

  ghost predicate IsSeparated(segs: seq<Segment>, pats: seq<string>) {
    forall d | 0 <= d < |segs| - 1 && segs[d].Drop? && segs[d + 1].Keep? :: Separates(segs[d + 1].c, pats)
  }

  predicate Separates(c: char, pats: seq<string>) { forall p | p in pats :: c !in p }

  lemma NothingJoins(segs: seq<Segment>, pats: seq<string>, j: nat, k: nat, p: string)
    requires IsSeparated(segs, pats) && p in pats
    ensures !Joins(segs, j, k, p)
  {
    hide KeptOf;
    if Joins(segs, j, k, p) {
      var window := segs[j..k];
      var d :| 0 <= d < |window| && window[d].Drop?;
      while window[d + 1].Drop?
        invariant 0 <= d < |window| - 1 && window[d].Drop?
        decreases |window| - d
      {
        d := d + 1;
      }
      assert segs[j + d].Drop? && segs[j + d + 1] == window[d + 1];
      KeptHas(window, d + 1);
      assert false;
    }
  }

  lemma {:induction false} KeptHas(segs: seq<Segment>, i: nat)
    requires i < |segs| && segs[i].Keep?
    ensures segs[i].c in KeptOf(segs)
  {
    if i > 0 {
      KeptHas(segs[1..], i - 1);
    }
  }

  /** An option with a value goes as a whole, with a comma in front of it, up to a blank, a line end, a NUL or the end
      of the text. */
  lemma WholeOption(pats: seq<string>, comma: string, w: string, v: string, rest: string)
    requires LongestFirst(pats) && (forall p | p in pats :: '=' !in p && ',' !in p) && w in pats
    requires comma in {"", ","}
    requires (forall i | 0 <= i < |v| :: v[i] !in {' ', '\n', '\0'}) && (rest != "" ==> rest[0] in {' ', '\n', '\0'})
    ensures MatchPatterns(comma + w + "=" + v + rest, pats) == Some(|comma + w + "=" + v|)
  {
    hide LongestFirst, FirstPrefix;
    var s, b := comma + w + "=" + v + rest, w + "=" + v + rest;
    assert w != "" && w[0] != ',' by { NotEmpty(pats, w); }
    assert s[|comma|..] == b;
    assert s[0] == ',' <==> comma == ",";
    FirstIsLongest(b, pats, w);
    PrefixLength(b, pats);
    var found := FirstPrefix(b, pats).value;
    assert '=' !in found && b[|w|] == '=';
    assert found == w;
    var len := |comma| + |w|;
    assert s[len..] == "=" + v + rest;
    ValueIs("=" + v, rest);
  }

  lemma NotEmpty(pats: seq<string>, w: string)
    requires LongestFirst(pats) && w in pats
    ensures w != ""
  {
  }

  lemma {:induction false} ValueIs(v: string, rest: string)
    requires (forall i | 0 <= i < |v| :: v[i] !in {' ', '\n', '\0'}) && (rest != "" ==> rest[0] in {' ', '\n', '\0'})
    ensures ValueLength(v + rest) == |v|
  {
    if v == "" {
      assert v + rest == rest;
    } else {
      assert (v + rest)[1..] == v[1..] + rest;
      ValueIs(v[1..], rest);
    }
  }

  lemma NoMatch(b: string, pats: seq<string>)
    requires b != "" && b[0] != ',' && forall i | 0 <= i < |pats| :: !(pats[i] <= b)
    ensures PatternMatcher(pats)(b) == None
  {
    assert b[0..] == b;
    PrefixLength(b, pats);
  }

  lemma VerifyMatches()
    ensures MatchPatterns("verifyvb", VERITY) == Some(6)
  {
    assert "verifyvb"[0..] == "verifyvb";
    NotPrefix(VERITY[0], "verifyvb", 6);
    assert VERITY[1..][0] == "verify" && "verify" <= "verifyvb";
  }

  lemma OthersStay()
    ensures var m := PatternMatcher(VERITY); m("averifyvb").None? && m("vb").None? && m("b").None?
  {
    hide MatchPatterns, FirstPrefix, PatternMatcher;
    forall i | 0 <= i < |VERITY| ensures !(VERITY[i] <= "averifyvb") {
      NotPrefix(VERITY[i], "averifyvb", if i == 2 || i == 3 then 2 else 0);
    }
    NoMatch("averifyvb", VERITY);
    forall i | 0 <= i < |VERITY| ensures !(VERITY[i] <= "vb") {
      NotPrefix(VERITY[i], "vb", 1);
    }
    NoMatch("vb", VERITY);
    NoMatch("b", VERITY);
  }

  lemma AvbIsOption()
    ensures HasOption("avb", VERITY)
  {
    hide MatchPatterns, FirstPrefix, LongestFirst, HaveNoCommas, HasOption;
    TablesAreLongestFirst();
    TablesHaveNoCommas();
    var p := VERITY[3];
    assert p in VERITY && "avb"[0..] == p;
    OptionIsPattern("avb", VERITY);
  }

  /** Removing an option can make another one: the text has to be patched again. */
  lemma JoinExample()
    ensures IsMatcher(PatternMatcher(VERITY))
    ensures Kept("averifyvb", PatternMatcher(VERITY)) == "avb" && HasOption("avb", VERITY)
  {
    hide Kept, IsMatcher, MatchPatterns, LongestFirst, HasOption;
    TablesAreLongestFirst();
    PatternsAreMatcher(VERITY);
    AvbIsOption();
    OthersStay();
    VerifyMatches();
    KeptOfExample(PatternMatcher(VERITY));
  }

  lemma KeptOfExample(m: string -> Option<nat>)
    requires IsMatcher(m)
    requires m("averifyvb").None? && m("verifyvb") == Some(6) && m("vb").None? && m("b").None?
    ensures Kept("averifyvb", m) == "avb"
  {
    hide Kept, IsMatcher;
    var s := "averifyvb";
    assert s[0..] == s && s[1..] == "verifyvb" && s[7..] == "vb" && s[8..] == "b" && s[9..] == "";
    KeptStep(s, 0, m);
    KeptStep(s, 1, m);
    KeptStep(s, 7, m);
    KeptStep(s, 8, m);
    KeptNothing(m);
  }
}
