/** The Python string operations the pipeline relies on: `pat in s`,
    `s.split(sep)`, `s.strip()` and `s.replace(c, "")`. */
module Text {
  import opened Common

  /** `pat` occurs in `s` starting at index `k`. */
  predicate OccursAt(s: string, pat: string, k: int) {
    0 <= k && k + |pat| <= |s| && s[k..k + |pat|] == pat
  }

  /** Python's `pat in s`. */
  ghost predicate Occurs(s: string, pat: string) {
    exists k :: OccursAt(s, pat, k)
  }

  /** `i` is where the leftmost occurrence of `pat` in `s` starts. */
  ghost predicate FirstOccurrence(s: string, pat: string, i: int) {
    OccursAt(s, pat, i) && forall k :: 0 <= k < i ==> !OccursAt(s, pat, k)
  }

  ghost predicate IsPrefix(p: string, s: string) {
    |p| <= |s| && s[..|p|] == p
  }

  /** The leftmost occurrence of `pat` in `s` at or after `from`. */
  function IndexFrom(s: string, pat: string, from: nat): (r: Option<nat>)
    decreases |s| + 1 - from
    ensures r.Some? ==> from <= r.value && OccursAt(s, pat, r.value)
    ensures r.Some? ==> forall k :: from <= k < r.value ==> !OccursAt(s, pat, k)
    ensures r.None? ==> forall k :: from <= k ==> !OccursAt(s, pat, k)
  {
    if from + |pat| > |s| then None
    else if s[from..from + |pat|] == pat then Some(from)
    else IndexFrom(s, pat, from + 1)
  }

  /** The leftmost occurrence of `pat` in `s` (Python's `s.find(pat)`, with `None` for -1). */
  function IndexOf(s: string, pat: string): (r: Option<nat>)
    ensures r.Some? <==> Occurs(s, pat)
    ensures r.Some? ==> FirstOccurrence(s, pat, r.value)
  {
    IndexFrom(s, pat, 0)
  }

  /** Python's `pat in s`, computed. */
  predicate Contains(s: string, pat: string) {
    IndexOf(s, pat).Some?
  }

  /** There is only one leftmost occurrence. */
  lemma FirstOccurrenceIsIndexOf(s: string, pat: string, i: int)
    requires FirstOccurrence(s, pat, i)
    ensures IndexOf(s, pat) == Some(i)
  {
    var r := IndexOf(s, pat);
    assert r.Some?;
    assert !(r.value < i);
    assert !(i < r.value);
  }

  /** An occurrence inside a prefix is an occurrence in the whole string. */
  lemma OccursInPrefix(p: string, s: string, pat: string, k: int)
    requires IsPrefix(p, s) && OccursAt(p, pat, k)
    ensures OccursAt(s, pat, k)
  {
    assert s[k..k + |pat|] == p[k..k + |pat|];
  }

  /** An occurrence of `q` inside an occurrence of `p` is an occurrence of `q`. */
  lemma OccursTransitive(s: string, p: string, q: string, k: int, j: int)
    requires OccursAt(s, p, k) && OccursAt(p, q, j)
    ensures OccursAt(s, q, k + j)
  {
    forall t | 0 <= t < |q|
      ensures s[k + j + t] == q[t]
    {
      assert q[t] == p[j..j + |q|][t] == p[j + t];
      assert p[j + t] == s[k..k + |p|][j + t];
    }
  }

  /** An occurrence at `k` is ruled out by one mismatching character. */
  lemma NoOccurrenceAt(s: string, pat: string, k: int, t: int)
    requires 0 <= k && 0 <= t < |pat|
    requires k + t < |s| ==> s[k + t] != pat[t]
    ensures !OccursAt(s, pat, k)
  {
    if k + |pat| <= |s| {
      assert s[k..k + |pat|][t] == s[k + t];
    }
  }

  /** A one-character pattern occurs exactly where that character stands. */
  lemma OccursAtChar(s: string, c: char)
    ensures forall k :: OccursAt(s, [c], k) <==> 0 <= k < |s| && s[k] == c
  {
    forall k | 0 <= k < |s|
      ensures OccursAt(s, [c], k) <==> s[k] == c
    {
      assert s[k..k + 1] == [s[k]];
    }
  }

  /** Python's `s.split(sep)` for a non-empty separator: the pieces between
      consecutive leftmost non-overlapping occurrences of `sep`. */
  function Split(s: string, sep: string): (parts: seq<string>)
    requires |sep| > 0
    decreases |s|
  {
    match IndexOf(s, sep)
    case None => [s]
    case Some(i) => [s[..i]] + Split(s[i + |sep|..], sep)
  }

  /** Python's `sep.join(parts)`. */
  function Join(parts: seq<string>, sep: string): string
    requires |parts| > 0
  {
    if |parts| == 1 then parts[0] else parts[0] + sep + Join(parts[1..], sep)
  }

  /** Splitting and joining again gives back the original string, splitting
      always yields at least one piece, and no piece contains the separator. */
  lemma {:induction false} SplitJoin(s: string, sep: string)
    requires |sep| > 0
    decreases |s|
    ensures |Split(s, sep)| > 0
    ensures Join(Split(s, sep), sep) == s
    ensures forall k :: 0 <= k < |Split(s, sep)| ==> !Occurs(Split(s, sep)[k], sep)
  {
    match IndexOf(s, sep)
    case None =>
    case Some(i) =>
      var rest := s[i + |sep|..];
      SplitJoin(rest, sep);
      var parts := Split(s, sep);
      assert parts == [s[..i]] + Split(rest, sep);
      assert parts[1..] == Split(rest, sep);
      assert s == s[..i] + sep + rest by {
        assert s[i..i + |sep|] == sep;
      }
      forall k | 0 <= k < |parts|
        ensures !Occurs(parts[k], sep)
      {
        if k == 0 {
          if Occurs(s[..i], sep) {
            var j :| OccursAt(s[..i], sep, j);
            OccursInPrefix(s[..i], s, sep, j);
          }
        } else {
          assert parts[k] == Split(rest, sep)[k - 1];
        }
      }
  }

  /** The first piece of a split is the text before the leftmost occurrence
      of the separator, or the whole string when there is none; there are at
      least two pieces exactly when the separator occurs. */
  lemma SplitHead(s: string, sep: string)
    requires |sep| > 0
    ensures |Split(s, sep)| >= 2 <==> Occurs(s, sep)
    ensures IndexOf(s, sep).None? ==> Split(s, sep)[0] == s
    ensures IndexOf(s, sep).Some? ==> Split(s, sep)[0] == s[..IndexOf(s, sep).value]
  {
  }

  /** The first piece of a split is a separator-free prefix that runs to the
      end of the string or stops where the separator starts. */
  lemma SplitHeadPiece(s: string, sep: string)
    requires |sep| > 0
    ensures var h := Split(s, sep)[0];
      && IsPrefix(h, s) && !Occurs(h, sep)
      && (h == s || OccursAt(s, sep, |h|))
  {
    SplitJoin(s, sep);
    SplitHead(s, sep);
  }

  /** When the separator occurs, the first piece followed by the separator
      is a prefix of the string. */
  lemma SplitHeadThenSep(s: string, sep: string)
    requires |sep| > 0 && Occurs(s, sep)
    ensures IsPrefix(Split(s, sep)[0] + sep, s)
  {
    SplitHead(s, sep);
    var i := IndexOf(s, sep).value;
    assert s[..i] + sep == s[..i + |sep|];
  }

  /** Whitespace in the sense of Python's `str.isspace`. */
  predicate IsSpace(c: char) {
    c == ' ' || ('\t' <= c <= '\r') || ('\U{1C}' <= c <= '\U{1F}') || c == '\U{85}' || c == '\U{A0}'
    || c == '\U{1680}' || ('\U{2000}' <= c <= '\U{200A}') || c == '\U{2028}' || c == '\U{2029}'
    || c == '\U{202F}' || c == '\U{205F}' || c == '\U{3000}'
  }

  ghost predicate AllSpace(s: string) {
    forall i :: 0 <= i < |s| ==> IsSpace(s[i])
  }

  /** `s` with its leading whitespace removed. */
  function TrimStart(s: string): (r: string)
    decreases |s|
    ensures |r| <= |s| && r == s[|s| - |r|..]
    ensures AllSpace(s[..|s| - |r|])
    ensures |r| > 0 ==> !IsSpace(r[0])
  {
    if |s| > 0 && IsSpace(s[0]) then TrimStart(s[1..]) else s
  }

  /** `s` with its trailing whitespace removed. */
  function TrimEnd(s: string): (r: string)
    decreases |s|
    ensures |r| <= |s| && r == s[..|r|]
    ensures AllSpace(s[|r|..])
    ensures |r| > 0 ==> !IsSpace(r[|r| - 1])
  {
    if |s| > 0 && IsSpace(s[|s| - 1]) then TrimEnd(s[..|s| - 1]) else s
  }

  /** Python's `s.strip()`: the longest infix of `s` that neither starts nor
      ends with whitespace, obtained by removing whitespace only. */
  function Strip(s: string): (r: string)
    ensures exists i, j :: 0 <= i <= j <= |s| && r == s[i..j] && AllSpace(s[..i]) && AllSpace(s[j..])
    ensures |r| > 0 ==> !IsSpace(r[0]) && !IsSpace(r[|r| - 1])
  {
    var t := TrimStart(s);
    var r := TrimEnd(t);
    TrimmedInfix(s, t, r);
    r
  }

  /** Trimming whitespace off the front and then the back leaves an infix
      with only whitespace around it. */
  lemma TrimmedInfix(s: string, t: string, r: string)
    requires |t| <= |s| && t == s[|s| - |t|..] && AllSpace(s[..|s| - |t|])
    requires |r| <= |t| && r == t[..|r|] && AllSpace(t[|r|..])
    ensures exists i, j :: 0 <= i <= j <= |s| && r == s[i..j] && AllSpace(s[..i]) && AllSpace(s[j..])
    ensures |r| > 0 ==> r[0] == t[0]
  {
    var i, j := |s| - |t|, |s| - |t| + |r|;
    assert r == s[i..j];
    assert s[j..] == t[|r|..];
  }

  /** Stripping only removes characters: what is left was in the text. */
  lemma StripKeepsOnly(s: string)
    ensures forall k :: 0 <= k < |Strip(s)| ==> Strip(s)[k] in s
  {
    var r := Strip(s);
    var i, j :| 0 <= i <= j <= |s| && r == s[i..j] && AllSpace(s[..i]) && AllSpace(s[j..]);
    forall k | 0 <= k < |r|
      ensures r[k] in s
    {
      assert r[k] == s[i + k];
    }
  }

  /** A string that neither starts nor ends with whitespace is its own strip. */
  lemma StripUnchanged(s: string)
    requires |s| > 0 ==> !IsSpace(s[0]) && !IsSpace(s[|s| - 1])
    ensures Strip(s) == s
  {
  }

  /** Stripping twice is stripping once. */
  lemma StripIdempotent(s: string)
    ensures Strip(Strip(s)) == Strip(s)
  {
    StripUnchanged(Strip(s));
  }

  /** Python's `s.replace(c, "")` for a one-character `c`. */
  function RemoveChar(s: string, c: char): (r: string)
    ensures |r| <= |s| && multiset(r) <= multiset(s)
    ensures c !in r
  {
    Filter(s, x => x != c)
  }

  /** Every other character survives the removal. */
  lemma RemoveCharKeeps(s: string, c: char, i: int)
    requires 0 <= i < |s| && s[i] != c
    ensures s[i] in RemoveChar(s, c)
  {
  }

  /** Removing a character from a concatenation removes it from each part. */
  lemma RemoveCharAppend(a: string, b: string, c: char)
    ensures RemoveChar(a + b, c) == RemoveChar(a, c) + RemoveChar(b, c)
  {
    FilterAppend(a, b, x => x != c);
  }

  /** Removing a character from a one-character string. */
  lemma RemoveCharSingle(d: char, c: char)
    ensures RemoveChar([d], c) == if d == c then [] else [d]
  {
    assert [d][1..] == [];
  }

  /** Removing a character around one position of a string. */
  lemma RemoveCharAround(a: string, d: char, b: string, c: char)
    ensures RemoveChar(a + [d] + b, c) == RemoveChar(a, c) + RemoveChar([d], c) + RemoveChar(b, c)
  {
    RemoveCharAppend(a + [d], b, c);
    RemoveCharAppend(a, [d], c);
  }

  /** Removing a character that does not occur changes nothing. */
  lemma {:induction false} RemoveCharAbsent(s: string, c: char)
    requires c !in s
    ensures RemoveChar(s, c) == s
  {
    if |s| > 0 {
      assert s == [s[0]] + s[1..];
      RemoveCharAbsent(s[1..], c);
    }
  }
}
