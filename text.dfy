/** The Python string operations the pipeline relies on: `str.strip()`,
    the substring test `sub in s`, Django's case-insensitive `icontains`,
    `str.split(sep)` and `sep.join(parts)`. */
module Text {

  /** Python's `str.isspace` on one character: the characters that
      `str.strip()` with no argument removes. */
  predicate IsSpace(c: char) {
    || ('\t' <= c <= '\r')
    || ('\U{1C}' <= c <= ' ')
    || c == '\U{85}' || c == '\U{A0}' || c == '\U{1680}'
    || ('\U{2000}' <= c <= '\U{200A}')
    || c == '\U{2028}' || c == '\U{2029}' || c == '\U{202F}' || c == '\U{205F}' || c == '\U{3000}'
  }

  predicate AllSpace(s: string) {
    forall i | 0 <= i < |s| :: IsSpace(s[i])
  }

  /** The number of leading whitespace characters of `s`. */
  function Lead(s: string): (c: nat)
    ensures c <= |s|
  {
    if s != [] && IsSpace(s[0]) then 1 + Lead(s[1..]) else 0
  }

  /** `Lead(s)` counts exactly the whitespace run at the start of `s`. */
  lemma {:induction false} LeadSpec(s: string)
    ensures forall i | 0 <= i < Lead(s) :: IsSpace(s[i])
    ensures Lead(s) < |s| ==> !IsSpace(s[Lead(s)])
  {
    if s != [] && IsSpace(s[0]) {
      LeadSpec(s[1..]);
      forall i | 1 <= i < Lead(s)
        ensures IsSpace(s[i])
      {
        assert s[i] == s[1..][i - 1];
      }
      if Lead(s) < |s| {
        assert s[Lead(s)] == s[1..][Lead(s[1..])];
      }
    }
  }

  /** The number of trailing whitespace characters of `s`. */
  function Trail(s: string): (c: nat)
    ensures c <= |s|
  {
    if s != [] && IsSpace(s[|s| - 1]) then 1 + Trail(s[..|s| - 1]) else 0
  }

  /** `Trail(s)` counts exactly the whitespace run at the end of `s`. */
  lemma {:induction false} TrailSpec(s: string)
    ensures forall i | |s| - Trail(s) <= i < |s| :: IsSpace(s[i])
    ensures Trail(s) < |s| ==> !IsSpace(s[|s| - 1 - Trail(s)])
  {
    if s != [] && IsSpace(s[|s| - 1]) {
      var u := s[..|s| - 1];
      TrailSpec(u);
      forall i | |s| - Trail(s) <= i < |s| - 1
        ensures IsSpace(s[i])
      {
        assert s[i] == u[i];
      }
      if Trail(s) < |s| {
        assert s[|s| - 1 - Trail(s)] == u[|u| - 1 - Trail(u)];
      }
    }
  }

  /** Python's `str.lstrip()`. */
  function TrimLeft(s: string): string {
    s[Lead(s)..]
  }

  /** Python's `str.rstrip()`. */
  function TrimRight(s: string): string {
    s[..|s| - Trail(s)]
  }

  /** Python's `str.strip()`. */
  function Strip(s: string): string {
    TrimRight(TrimLeft(s))
  }

  /** `rstrip()` leaves no whitespace at the end. */
  lemma TrimRightEnd(t: string)
    ensures TrimRight(t) != [] ==> !IsSpace(TrimRight(t)[|TrimRight(t)| - 1])
  {
    var k := |t| - Trail(t);
    TrailSpec(t);
    if k > 0 {
      assert TrimRight(t)[k - 1] == t[|t| - 1 - Trail(t)];
    }
  }

  /** What `strip()` keeps starts and ends with a non-whitespace character. */
  lemma StripEnds(s: string)
    ensures Strip(s) != [] ==> !IsSpace(Strip(s)[0]) && !IsSpace(Strip(s)[|Strip(s)| - 1])
  {
    var t := TrimLeft(s);
    TrimRightEnd(t);
    LeadSpec(s);
    if Strip(s) != [] {
      assert Strip(s)[0] == t[0] == s[Lead(s)];
    }
  }

  /** `strip()` keeps a contiguous infix of `s`, starting after its
      leading whitespace. */
  lemma StripInfix(s: string)
    ensures Lead(s) + |Strip(s)| <= |s|
    ensures Strip(s) == s[Lead(s)..Lead(s) + |Strip(s)|]
  {
    var l := Lead(s);
    var t := s[l..];
    assert TrimLeft(s) == t;
    var k := |t| - Trail(t);
    assert Strip(s) == t[..k] == s[l..l + k];
  }

  /** `lstrip()` removes a prefix of whitespace. */
  lemma LeadIsSpace(s: string)
    ensures AllSpace(s[..Lead(s)])
  {
    LeadSpec(s);
    var pre := s[..Lead(s)];
    forall j | 0 <= j < |pre|
      ensures IsSpace(pre[j])
    {
      assert pre[j] == s[j];
    }
  }

  /** `rstrip()` removes a suffix of whitespace. */
  lemma TrailIsSpace(t: string)
    ensures AllSpace(t[|t| - Trail(t)..])
  {
    TrailSpec(t);
    var k := |t| - Trail(t);
    var post := t[k..];
    forall j | 0 <= j < |post|
      ensures IsSpace(post[j])
    {
      assert post[j] == t[k + j];
    }
  }

  /** What `strip()` removes on either side is whitespace. */
  lemma StripRemovesSpace(s: string)
    requires Lead(s) + |Strip(s)| <= |s|
    ensures AllSpace(s[..Lead(s)]) && AllSpace(s[Lead(s) + |Strip(s)|..])
  {
    LeadIsSpace(s);
    var l := Lead(s);
    var t := s[l..];
    assert TrimLeft(s) == t;
    var k := |t| - Trail(t);
    assert |Strip(s)| == k;
    TrailIsSpace(t);
    assert s[l + k..] == t[k..];
  }

  /** `strip()` yields the infix of `s` left after removing all leading and
      all trailing whitespace: what it removes is whitespace and what it
      keeps neither starts nor ends with whitespace. */
  lemma StripSpec(s: string)
    ensures Lead(s) + |Strip(s)| <= |s|
    ensures Strip(s) == s[Lead(s)..Lead(s) + |Strip(s)|]
    ensures AllSpace(s[..Lead(s)]) && AllSpace(s[Lead(s) + |Strip(s)|..])
    ensures Strip(s) != [] ==> !IsSpace(Strip(s)[0]) && !IsSpace(Strip(s)[|Strip(s)| - 1])
  {
    StripInfix(s);
    StripRemovesSpace(s);
    StripEnds(s);
  }

  /** `[x.strip() for x in xs]` */
  function StripEach(xs: seq<string>): (r: seq<string>)
    ensures |r| == |xs|
    ensures forall i | 0 <= i < |xs| :: r[i] == Strip(xs[i])
  {
    if xs == [] then [] else [Strip(xs[0])] + StripEach(xs[1..])
  }

  lemma {:induction false} StripEachAppend(xs: seq<string>, ys: seq<string>)
    ensures StripEach(xs + ys) == StripEach(xs) + StripEach(ys)
  {
    if xs == [] {
      assert xs + ys == ys;
    } else {
      assert (xs + ys)[0] == xs[0];
      assert (xs + ys)[1..] == xs[1..] + ys;
      StripEachAppend(xs[1..], ys);
    }
  }

  /** A character absent from a string is absent from each of its slices. */
  lemma SliceKeepsAbsent(p: string, c: char, i: int, j: int)
    requires c !in p && 0 <= i <= j <= |p|
    ensures c !in p[i..j]
  {
    forall k | 0 <= k < j - i
      ensures p[i..j][k] != c
    {
      assert p[i..j][k] == p[i + k];
    }
  }

  /** Leading whitespace adds to the count of leading whitespace. */
  lemma {:induction false} LeadSkipsSpace(w: string, s: string)
    requires AllSpace(w)
    ensures Lead(w + s) == |w| + Lead(s)
    decreases |w|
  {
    if w == [] {
      assert w + s == s;
    } else {
      assert (w + s)[0] == w[0];
      assert (w + s)[1..] == w[1..] + s;
      assert AllSpace(w[1..]) by {
        assert forall i | 0 <= i < |w| - 1 :: w[1..][i] == w[i + 1];
      }
      LeadSkipsSpace(w[1..], s);
    }
  }

  /** Trailing whitespace adds to the count of trailing whitespace. */
  lemma {:induction false} TrailSkipsSpace(s: string, w: string)
    requires AllSpace(w)
    ensures Trail(s + w) == Trail(s) + |w|
    decreases |w|
  {
    if w == [] {
      assert s + w == s;
    } else {
      var sw := s + w;
      assert sw[|sw| - 1] == w[|w| - 1];
      assert sw[..|sw| - 1] == s + w[..|w| - 1];
      assert AllSpace(w[..|w| - 1]) by {
        assert forall i | 0 <= i < |w| - 1 :: w[..|w| - 1][i] == w[i];
      }
      TrailSkipsSpace(s, w[..|w| - 1]);
    }
  }

  /** Text after a string that is not all whitespace does not change its
      leading whitespace. */
  lemma {:induction false} LeadAppend(s: string, w: string)
    requires Lead(s) < |s|
    ensures Lead(s + w) == Lead(s)
    decreases |s|
  {
    assert (s + w)[0] == s[0];
    if IsSpace(s[0]) {
      assert (s + w)[1..] == s[1..] + w;
      LeadAppend(s[1..], w);
    }
  }

  /** `lstrip()` ignores leading whitespace added in front. */
  lemma TrimLeftSkipsSpace(w: string, x: string)
    requires AllSpace(w)
    ensures TrimLeft(w + x) == TrimLeft(x)
  {
    LeadSkipsSpace(w, x);
    assert (w + x)[|w| + Lead(x)..] == x[Lead(x)..];
  }

  /** `rstrip()` ignores trailing whitespace added at the end. */
  lemma TrimRightSkipsSpace(t: string, w: string)
    requires AllSpace(w)
    ensures TrimRight(t + w) == TrimRight(t)
  {
    TrailSkipsSpace(t, w);
    assert (t + w)[..|t| + |w| - Trail(t + w)] == t[..|t| - Trail(t)];
  }

  /** Dropping a prefix of the first part of a concatenation. */
  lemma DropAppend(s: string, w: string, l: nat)
    requires l <= |s|
    ensures (s + w)[l..] == s[l..] + w
  {
    var x, y := (s + w)[l..], s[l..] + w;
    forall i | 0 <= i < |x|
      ensures x[i] == y[i]
    {
      var j := l + i;
      assert x[i] == (s + w)[j];
      if j < |s| {
        assert (s + w)[j] == s[j] == s[l..][i] == y[i];
      } else {
        assert (s + w)[j] == w[j - |s|] == y[i];
      }
    }
  }

  /** `lstrip()` of a string that is not all whitespace ignores what follows. */
  lemma TrimLeftAppend(s: string, w: string)
    requires Lead(s) < |s|
    ensures TrimLeft(s + w) == TrimLeft(s) + w
  {
    LeadAppend(s, w);
    DropAppend(s, w, Lead(s));
  }

  /** `lstrip()` of an all-whitespace string is empty. */
  lemma TrimLeftAllSpace(w: string)
    requires AllSpace(w)
    ensures TrimLeft(w) == []
  {
    LeadSkipsSpace(w, []);
    assert w + [] == w;
  }

  /** Surrounding whitespace never changes what `strip()` yields, so
      `" Foo"` and `"Foo"` strip to the same string. */
  lemma StripIgnoresSurroundingSpace(w1: string, s: string, w2: string)
    requires AllSpace(w1) && AllSpace(w2)
    ensures Strip(w1 + s + w2) == Strip(s)
  {
    assert w1 + s + w2 == w1 + (s + w2);
    TrimLeftSkipsSpace(w1, s + w2);
    if Lead(s) < |s| {
      TrimLeftAppend(s, w2);
      TrimRightSkipsSpace(TrimLeft(s), w2);
    } else {
      LeadSpec(s);
      assert AllSpace(s + w2);
      TrimLeftAllSpace(s + w2);
      TrimLeftAllSpace(s);
    }
  }

  /** A string that neither starts nor ends with whitespace strips to itself. */
  lemma StripTrimmed(s: string)
    requires s != [] && !IsSpace(s[0]) && !IsSpace(s[|s| - 1])
    ensures Strip(s) == s
  {
    assert Lead(s) == 0;
    assert TrimLeft(s) == s;
    assert Trail(s) == 0;
  }

  /** Stripping twice is stripping once. */
  lemma StripIdempotent(s: string)
    ensures Strip(Strip(s)) == Strip(s)
  {
    StripSpec(s);
    var r := Strip(s);
    if r != [] {
      assert Lead(r) == 0;
      assert Trail(r) == 0;
    }
  }

  /** Python's `sub in s`. */
  predicate Contains(s: string, sub: string)
    decreases |s|
  {
    || (|sub| <= |s| && s[..|sub|] == sub)
    || (s != [] && Contains(s[1..], sub))
  }

  /** `sub` occurs in `s` starting at position `i`. */
  predicate OccursAt(s: string, sub: string, i: int) {
    0 <= i && i + |sub| <= |s| && s[i..i + |sub|] == sub
  }

  /** `sub in s` holds exactly when `sub` occurs at some position of `s`. */
  lemma {:induction false} ContainsAt(s: string, sub: string)
    ensures Contains(s, sub) <==> exists i :: OccursAt(s, sub, i)
    decreases |s|
  {
    if |sub| <= |s| && s[..|sub|] == sub {
      assert OccursAt(s, sub, 0);
    }
    if s != [] {
      ContainsAt(s[1..], sub);
      if Contains(s[1..], sub) {
        var i :| OccursAt(s[1..], sub, i);
        assert OccursAt(s, sub, i + 1);
      }
      if exists i :: OccursAt(s, sub, i) {
        var i :| OccursAt(s, sub, i);
        if i > 0 {
          assert OccursAt(s[1..], sub, i - 1);
        }
      }
    }
  }

  /** A string does not occur in a text lacking its first character. */
  lemma {:induction false} AbsentFirstChar(s: string, sub: string)
    requires sub != [] && sub[0] !in s
    ensures !Contains(s, sub)
    decreases |s|
  {
    if s != [] {
      assert sub[0] !in s[1..] by {
        forall i | 0 <= i < |s| - 1
          ensures s[1..][i] != sub[0]
        {
          assert s[1..][i] == s[i + 1];
        }
      }
      AbsentFirstChar(s[1..], sub);
    }
  }

  /** Whatever occurs inside an occurring string occurs too. */
  lemma ContainsInfix(s: string, mid: string, sub: string, k: int)
    requires Contains(s, mid) && OccursAt(mid, sub, k)
    ensures Contains(s, sub)
  {
    ContainsAt(s, mid);
    var i :| OccursAt(s, mid, i);
    assert forall j | 0 <= j < |mid| :: s[i + j] == s[i..i + |mid|][j] == mid[j];
    assert forall j | 0 <= j < |sub| :: mid[k + j] == mid[k..k + |sub|][j] == sub[j];
    assert s[i + k..i + k + |sub|] == sub;
    assert OccursAt(s, sub, i + k);
    ContainsAt(s, sub);
  }

  function LowerChar(c: char): char {
    if 'A' <= c <= 'Z' then (c as int + 32) as char else c
  }

  /** ASCII lower-casing, character by character. */
  function Lower(s: string): string {
    seq(|s|, i requires 0 <= i < |s| => LowerChar(s[i]))
  }

  /** Case-insensitive substring test (Django's `icontains`). */
  predicate IContains(s: string, sub: string) {
    Contains(Lower(s), Lower(sub))
  }

  /** A case-sensitive match is also a case-insensitive one. */
  lemma ContainsImpliesIContains(s: string, sub: string)
    requires Contains(s, sub)
    ensures IContains(s, sub)
  {
    ContainsAt(s, sub);
    var i :| OccursAt(s, sub, i);
    assert Lower(s)[i..i + |sub|] == Lower(sub);
    assert OccursAt(Lower(s), Lower(sub), i);
    ContainsAt(Lower(s), Lower(sub));
  }

  function Occurrences(s: string, c: char): nat {
    if s == [] then 0 else (if s[0] == c then 1 else 0) + Occurrences(s[1..], c)
  }

  /** Python's `s.split(sep)` for a one-character separator: one piece more
      than there are separators, and no piece holds the separator. */
  function Split(s: string, sep: char): (r: seq<string>)
    ensures |r| == Occurrences(s, sep) + 1
    ensures forall i | 0 <= i < |r| :: sep !in r[i]
  {
    if s == [] then [""]
    else
      var rest := Split(s[1..], sep);
      if s[0] == sep then [""] + rest
      else [[s[0]] + rest[0]] + rest[1..]
  }

  /** Python's `sep.join(parts)`. */
  function Join(parts: seq<string>, sep: string): string {
    if parts == [] then ""
    else if |parts| == 1 then parts[0]
    else parts[0] + sep + Join(parts[1..], sep)
  }

  /** Joining the pieces back with the separator gives the original string. */
  lemma {:induction false} JoinSplit(s: string, sep: char)
    ensures Join(Split(s, sep), [sep]) == s
  {
    if s != [] {
      var rest := Split(s[1..], sep);
      JoinSplit(s[1..], sep);
      if s[0] == sep {
        assert ([""] + rest)[1..] == rest;
      } else {
        var r := [[s[0]] + rest[0]] + rest[1..];
        if |rest| == 1 {
          assert r == [[s[0]] + rest[0]];
        } else {
          assert r[1..] == rest[1..];
        }
      }
    }
  }

  lemma {:induction false} SplitWithoutSeparator(p: string, sep: char)
    requires sep !in p
    ensures Split(p, sep) == [p]
  {
    if p != [] {
      SplitWithoutSeparator(p[1..], sep);
      assert [p[0]] + p[1..] == p;
    }
  }

  lemma {:induction false} SplitAfterPiece(p: string, sep: char, t: string)
    requires sep !in p
    ensures Split(p + [sep] + t, sep) == [p] + Split(t, sep)
  {
    if p == [] {
      assert p + [sep] + t == [sep] + t;
      assert ([sep] + t)[1..] == t;
    } else {
      assert (p + [sep] + t)[1..] == p[1..] + [sep] + t;
      SplitAfterPiece(p[1..], sep, t);
      assert [p[0]] + p[1..] == p;
    }
  }

  /** Splitting a join of separator-free pieces gives the pieces back. */
  lemma {:induction false} SplitJoin(parts: seq<string>, sep: char)
    requires parts != []
    requires forall i | 0 <= i < |parts| :: sep !in parts[i]
    ensures Split(Join(parts, [sep]), sep) == parts
  {
    if |parts| == 1 {
      SplitWithoutSeparator(parts[0], sep);
    } else {
      SplitJoin(parts[1..], sep);
      SplitAfterPiece(parts[0], sep, Join(parts[1..], [sep]));
      assert [parts[0]] + parts[1..] == parts;
    }
  }

  /** Joining two non-empty lists is joining each and putting the separator
      in between. */
  lemma {:induction false} JoinAppend(xs: seq<string>, ys: seq<string>, sep: string)
    requires xs != [] && ys != []
    ensures Join(xs + ys, sep) == Join(xs, sep) + sep + Join(ys, sep)
  {
    if |xs| == 1 {
      assert (xs + ys)[1..] == ys;
    } else {
      assert (xs + ys)[1..] == xs[1..] + ys;
      JoinAppend(xs[1..], ys, sep);
    }
  }
}
