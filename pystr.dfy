/** The Python `str` operations that pyc2bytecode.py calls, stated over
    Dafny strings: `strip` (with `isspace`), `startswith`, `split(sep, 1)`,
    `rsplit(sep, 1)` and `replace`; also the searches that the two splits
    rest on, and `endswith` for stating the `.bin` property. Separators and
    patterns are non-empty throughout, as they are at every call site. */
module PyStr {

  datatype Option<T> = None | Some(value: T)

  /** The characters Python's `str.isspace()` accepts, which are exactly the
      characters `str.strip()` with no argument removes. */
  predicate IsSpace(c: char) {
    ('\t' <= c <= '\r') || ('\U{1C}' <= c <= '\U{1F}') || c == ' '
    || c == '\U{85}' || c == '\U{A0}' || c == '\U{1680}'
    || ('\U{2000}' <= c <= '\U{200A}') || c == '\U{2028}' || c == '\U{2029}'
    || c == '\U{202F}' || c == '\U{205F}' || c == '\U{3000}'
  }

  ghost predicate AllSpace(s: string) {
    forall k :: 0 <= k < |s| ==> IsSpace(s[k])
  }

  /** Neither end of `s` is whitespace: the shape of anything `strip()` returns. */
  predicate Stripped(s: string) {
    s == [] || (!IsSpace(s[0]) && !IsSpace(s[|s| - 1]))
  }

  /** Python's `lstrip()`: drops the leading whitespace and nothing else. */
  function TrimStart(s: string): (r: string)
    ensures |r| <= |s| && r == s[|s| - |r|..]
    ensures AllSpace(s[..|s| - |r|])
    ensures r == [] || !IsSpace(r[0])
    decreases |s|
  {
    if s != [] && IsSpace(s[0]) then
      var r := TrimStart(s[1..]);
      assert s[..|s| - |r|] == [s[0]] + s[1..][..|s| - 1 - |r|];
      r
    else s
  }

  /** Python's `rstrip()`: drops the trailing whitespace and nothing else. */
  function TrimEnd(s: string): (r: string)
    ensures |r| <= |s| && r == s[..|r|]
    ensures AllSpace(s[|r|..])
    ensures r == [] || !IsSpace(r[|r| - 1])
    decreases |s|
  {
    if s != [] && IsSpace(s[|s| - 1]) then
      var r := TrimEnd(s[..|s| - 1]);
      assert s[|r|..] == s[..|s| - 1][|r|..] + [s[|s| - 1]];
      r
    else s
  }

  /** Python's `strip()`: the text left once the whitespace at both ends is
      gone. */
  function Strip(s: string): (r: string)
    ensures Stripped(r) && |r| <= |s|
  {
    TrimStart(TrimEnd(s))
  }

  /** What `strip()` returns is a slice of its argument with nothing but
      whitespace on either side; `i` is where the slice starts. */
  lemma StripSlice(s: string) returns (i: nat)
    ensures i + |Strip(s)| <= |s| && Strip(s) == s[i..i + |Strip(s)|]
    ensures AllSpace(s[..i]) && AllSpace(s[i + |Strip(s)|..])
  {
    var e := TrimEnd(s);
    var r := TrimStart(e);
    i := |e| - |r|;
    assert r == s[i..i + |r|] && s[..i] == e[..i];
  }

  lemma {:induction false} TrimEndOf(u: string, w: string)
    requires AllSpace(w)
    requires u == [] || !IsSpace(u[|u| - 1])
    ensures TrimEnd(u + w) == u
    decreases |w|
  {
    if w == [] {
      assert u + w == u;
    } else {
      var w' := w[..|w| - 1];
      assert (u + w)[..|u + w| - 1] == u + w';
      TrimEndOf(u, w');
    }
  }

  lemma {:induction false} TrimStartOf(w: string, u: string)
    requires AllSpace(w)
    requires u == [] || !IsSpace(u[0])
    ensures TrimStart(w + u) == u
    decreases |w|
  {
    if w == [] {
      assert w + u == u;
    } else {
      assert (w + u)[1..] == w[1..] + u;
      TrimStartOf(w[1..], u);
    }
  }

  /** `strip()` is determined by its result's shape: any text with no
      whitespace at its ends, padded with whitespace on either side, strips
      back to itself. */
  lemma {:induction false} StripOf(w1: string, t: string, w2: string)
    requires AllSpace(w1) && AllSpace(w2) && Stripped(t)
    ensures Strip(w1 + t + w2) == t
  {
    var s := w1 + t + w2;
    if t == [] {
      var i := StripSlice(s);
      if Strip(s) != [] {
        assert false;
      }
    } else {
      TrimEndOf(w1 + t, w2);
      TrimStartOf(w1, t);
    }
  }

  /** `strip()` leaves text with no whitespace at its ends alone. */
  lemma StripStripped(s: string)
    requires Stripped(s)
    ensures Strip(s) == s
  {
    assert "" + s + "" == s;
    StripOf("", s, "");
  }

  /** Stripping twice is stripping once. */
  lemma StripIdempotent(s: string)
    ensures Strip(Strip(s)) == Strip(s)
  {
    StripStripped(Strip(s));
  }

  /** Python's `s.startswith(p)`. */
  predicate StartsWith(s: string, p: string) {
    |p| <= |s| && s[..|p|] == p
  }

  /** Python's `s.endswith(p)`, used here to state what the `.bin` path
      looks like. */
  predicate EndsWith(s: string, p: string) {
    |p| <= |s| && s[|s| - |p|..] == p
  }

  /** `m` occurs in `s` starting at index `k`. */
  predicate OccursAt(s: string, m: string, k: int) {
    0 <= k && k + |m| <= |s| && s[k..k + |m|] == m
  }

  /** `k` is the leftmost occurrence of `m` in `s`. */
  ghost predicate FirstOccurrence(s: string, m: string, k: int) {
    OccursAt(s, m, k) && forall j :: OccursAt(s, m, j) ==> k <= j
  }

  /** `k` is the rightmost occurrence of `m` in `s`. */
  ghost predicate LastOccurrence(s: string, m: string, k: int) {
    OccursAt(s, m, k) && forall j :: OccursAt(s, m, j) ==> j <= k
  }

  ghost predicate Absent(s: string, m: string) {
    forall k :: !OccursAt(s, m, k)
  }

  /** An occurrence inside a slice is an occurrence in the whole string. */
  lemma OccursInSlice(s: string, a: int, b: int, m: string, k: int)
    requires 0 <= a <= b <= |s|
    requires OccursAt(s[a..b], m, k)
    ensures OccursAt(s, m, a + k)
  {
    var t := s[a..b];
    assert t[k..k + |m|] == m;
    forall i | 0 <= i < |m|
      ensures s[a + k + i] == m[i]
    {
      assert t[k + i] == m[i];
    }
    assert s[a + k..a + k + |m|] == m;
  }

  /** A slice of a string in which `m` does not occur has no `m` either. */
  lemma AbsentInSlice(s: string, a: int, b: int, m: string)
    requires 0 <= a <= b <= |s|
    requires Absent(s, m)
    ensures Absent(s[a..b], m)
  {
    forall k | OccursAt(s[a..b], m, k)
      ensures false
    {
      OccursInSlice(s, a, b, m, k);
    }
  }

  /** Stripping cannot create an occurrence. */
  lemma StripKeepsAbsent(t: string, m: string)
    requires Absent(t, m)
    ensures Absent(Strip(t), m)
  {
    var i := StripSlice(t);
    AbsentInSlice(t, i, i + |Strip(t)|, m);
  }

  /** Leftmost occurrence of `m` at index `j` or later. */
  function FirstFrom(s: string, m: string, j: nat): (r: Option<nat>)
    requires |m| > 0
    ensures r.Some? ==> j <= r.value && OccursAt(s, m, r.value)
    ensures forall k :: j <= k && OccursAt(s, m, k) ==> r.Some? && r.value <= k
    decreases |s| - j
  {
    if j + |m| > |s| then None
    else if s[j..j + |m|] == m then Some(j)
    else FirstFrom(s, m, j + 1)
  }

  /** Rightmost occurrence of `m` at index `j` or earlier. */
  function LastFrom(s: string, m: string, j: nat): (r: Option<nat>)
    requires |m| > 0
    ensures r.Some? ==> r.value <= j && OccursAt(s, m, r.value)
    ensures forall k :: k <= j && OccursAt(s, m, k) ==> r.Some? && k <= r.value
    decreases j
  {
    if OccursAt(s, m, j) then Some(j)
    else if j == 0 then None
    else LastFrom(s, m, j - 1)
  }

  /** The leftmost search that `split(m, 1)` rests on: it agrees with
      Python's `s.find(m)` for a non-empty `m`, with `None` for -1. */
  function IndexOf(s: string, m: string): (r: Option<nat>)
    requires |m| > 0
    ensures r.Some? ==> FirstOccurrence(s, m, r.value)
    ensures r.None? ==> Absent(s, m)
  {
    FirstFrom(s, m, 0)
  }

  /** The rightmost search that `rsplit(m, 1)` rests on: it agrees with
      Python's `s.rfind(m)` for a non-empty `m`, with `None` for -1. */
  function LastIndexOf(s: string, m: string): (r: Option<nat>)
    requires |m| > 0
    ensures r.Some? ==> LastOccurrence(s, m, r.value)
    ensures r.None? ==> Absent(s, m)
  {
    if |s| < |m| then None else LastFrom(s, m, |s| - |m|)
  }

  /** Python's `s.split(sep, 1)`: the text before the first `sep` and the
      text after it, or `[s]` alone when `sep` does not occur. */
  function SplitOnce(s: string, sep: string): (r: seq<string>)
    requires |sep| > 0
    ensures |r| == 1 || |r| == 2
    ensures |r| == 1 ==> r[0] == s && Absent(s, sep)
    ensures |r| == 2 ==> s == r[0] + sep + r[1] && FirstOccurrence(s, sep, |r[0]|)
  {
    match IndexOf(s, sep)
    case None => [s]
    case Some(i) =>
      assert s == s[..i] + sep + s[i + |sep|..];
      [s[..i], s[i + |sep|..]]
  }

  /** Python's `s.rsplit(sep, 1)`: the text before the last `sep` and the
      text after it, or `[s]` alone when `sep` does not occur. */
  function RSplitOnce(s: string, sep: string): (r: seq<string>)
    requires |sep| > 0
    ensures |r| == 1 || |r| == 2
    ensures |r| == 1 ==> r[0] == s && Absent(s, sep)
    ensures |r| == 2 ==> s == r[0] + sep + r[1] && LastOccurrence(s, sep, |r[0]|)
  {
    match LastIndexOf(s, sep)
    case None => [s]
    case Some(i) =>
      assert s == s[..i] + sep + s[i + |sep|..];
      [s[..i], s[i + |sep|..]]
  }

  /** The text after the last `sep` that `rsplit(sep, 1)` returns never
      contains `sep` itself. */
  lemma RSplitTailAbsent(s: string, sep: string)
    requires |sep| > 0
    ensures |RSplitOnce(s, sep)| == 2 ==> Absent(RSplitOnce(s, sep)[1], sep)
  {
    var r := RSplitOnce(s, sep);
    if |r| == 2 {
      var a := |r[0]| + |sep|;
      assert r[1] == s[a..|s|];
      forall k | OccursAt(r[1], sep, k)
        ensures false
      {
        OccursInSlice(s, a, |s|, sep, k);
      }
    }
  }

  /** `s.split(m, 1)[1]` for an `s` known to start with `m`: since the first
      occurrence of `m` is then at index 0, this is what follows that prefix. */
  function AfterPrefix(s: string, m: string): (r: string)
    requires |m| > 0 && StartsWith(s, m)
    ensures s == m + r
  {
    assert OccursAt(s, m, 0);
    SplitOnce(s, m)[1]
  }

  /** Python's `s.replace(pat, rep)`: every occurrence of `pat`, scanned left
      to right without overlap, is replaced; the inserted text is not
      scanned again. */
  function ReplaceAll(s: string, pat: string, rep: string): string
    requires |pat| > 0
    decreases |s|
  {
    if |s| < |pat| then s
    else if s[..|pat|] == pat then rep + ReplaceAll(s[|pat|..], pat, rep)
    else [s[0]] + ReplaceAll(s[1..], pat, rep)
  }

  lemma NoEarlyOccurrenceTail(p: string, pat: string)
    requires |p| > 0
    requires forall k :: 0 <= k < |p| ==> !OccursAt(p + pat, pat, k)
    ensures forall k :: 0 <= k < |p[1..]| ==> !OccursAt(p[1..] + pat, pat, k)
  {
    var s := p + pat;
    var t := p[1..] + pat;
    assert s[1..|s|] == t;
    forall k | 0 <= k < |p[1..]| && OccursAt(t, pat, k)
      ensures false
    {
      OccursInSlice(s, 1, |s|, pat, k);
    }
  }

  lemma ReplaceAllStep(s: string, pat: string, rep: string)
    requires |pat| > 0 && |pat| <= |s| && !OccursAt(s, pat, 0)
    ensures ReplaceAll(s, pat, rep) == [s[0]] + ReplaceAll(s[1..], pat, rep)
  {
  }

  /** Replacing in a template whose only occurrence of `pat` is at its very
      end splices `rep` there. */
  lemma {:induction false} ReplaceAllAtEnd(p: string, pat: string, rep: string)
    requires |pat| > 0
    requires forall k :: 0 <= k < |p| ==> !OccursAt(p + pat, pat, k)
    ensures ReplaceAll(p + pat, pat, rep) == p + rep
    decreases |p|
  {
    if p == [] {
      assert p + pat == pat;
      assert pat[|pat|..] == [];
    } else {
      var s := p + pat;
      var t := p[1..] + pat;
      assert s[1..] == t && s[0] == p[0];
      assert !OccursAt(s, pat, 0);
      ReplaceAllStep(s, pat, rep);
      NoEarlyOccurrenceTail(p, pat);
      ReplaceAllAtEnd(p[1..], pat, rep);
      calc {
        ReplaceAll(p + pat, pat, rep);
        [p[0]] + ReplaceAll(t, pat, rep);
        [p[0]] + (p[1..] + rep);
        { assert [p[0]] + p[1..] == p; }
        p + rep;
      }
    }
  }
}
