/**
Character classes and scans of the C locale, shared by the text-handling modules.
*/
module Ascii {

  datatype Option<T> = None | Some(value: T)

  /** `isspace` in the C locale. */
  predicate IsSpace(c: char) { c == ' ' || '\t' <= c <= '\r' }

  function Lower(c: char): char { if 'A' <= c <= 'Z' then c - 'A' + 'a' else c }

  function LowerAll(s: string): (r: string)
    ensures |r| == |s| && forall i | 0 <= i < |s| :: r[i] == Lower(s[i])
  {
    seq(|s|, i requires 0 <= i < |s| => Lower(s[i]))
  }

  // ---------------------------------------------------------------- runs of characters

  /** The length of the longest prefix of `t` whose characters all satisfy `p`. */
  function Span(p: char -> bool, t: string): (n: nat)
    ensures n <= |t|
    ensures forall i | 0 <= i < n :: p(t[i])
    ensures n < |t| ==> !p(t[n])
  {
    if t == [] || !p(t[0]) then 0 else 1 + Span(p, t[1..])
  }

  lemma {:induction false} SpanIs(p: char -> bool, t: string, n: nat)
    requires n <= |t| && (forall i | 0 <= i < n :: p(t[i])) && (n < |t| ==> !p(t[n]))
    ensures Span(p, t) == n
  {
    if n > 0 { SpanIs(p, t[1..], n - 1); }
  }

  /** The length of the longest prefix of `t` without `c`. */
  function Upto(c: char, t: string): (n: nat)
    ensures n <= |t|
    ensures c !in t[..n]
    ensures n < |t| ==> t[n] == c
  {
    if t == [] || t[0] == c then 0 else 1 + Upto(c, t[1..])
  }

  lemma {:induction false} UptoIs(c: char, t: string, n: nat)
    requires n <= |t| && c !in t[..n] && (n < |t| ==> t[n] == c)
    ensures Upto(c, t) == n
  {
    if n > 0 {
      assert t[..n][0] == t[0] && t[1..][..n - 1] == t[..n][1..];
      UptoIs(c, t[1..], n - 1);
    }
  }

  /** A C string ends at its first NUL. */
  function CString(s: string): string { s[..Upto('\0', s)] }

  lemma WholeCString(s: string)
    requires '\0' !in s
    ensures CString(s) == s
  {
    UptoIs('\0', s, |s|);
  }

  lemma {:induction false} UptoAtMost(c: char, t: string, i: nat)
    requires i < |t| && t[i] == c
    ensures Upto(c, t) <= i
  {
    if i > 0 { UptoAtMost(c, t[1..], i - 1); }
  }

  function Blank(t: string): nat { Span(IsSpace, t) }

  function SkipBlank(t: string): string { t[Blank(t)..] }

  lemma SkipBlankTwice(t: string)
    ensures SkipBlank(SkipBlank(t)) == SkipBlank(t)
  {
    SpanIs(IsSpace, SkipBlank(t), 0);
  }

  // ---------------------------------------------------------------- loops

  lemma Rest(s: string, p: nat)
    requires p < |s|
    ensures s[p..] != [] && s[p..][0] == s[p] && s[p..][1..] == s[p + 1..]
  {
  }

  /** A loop that passes over characters satisfying `f`. */
  method SkipWhile(f: char -> bool, s: string, p: nat) returns (q: nat)
    requires p <= |s|
    ensures p <= q <= |s| && q == p + Span(f, s[p..])
  {
    q := p;
    while q < |s| && f(s[q])
      invariant p <= q <= |s|
      invariant p + Span(f, s[p..]) == q + Span(f, s[q..])
    {
      Rest(s, q);
      q := q + 1;
    }
  }

  /** `json_mini_skip_ws`, and `skip_ws` of the sanitizer. */
  method SkipWs(s: string, p: nat) returns (q: nat)
    requires p <= |s|
    ensures p <= q <= |s| && q == p + Blank(s[p..]) && s[q..] == SkipBlank(s[p..])
  {
    q := SkipWhile(IsSpace, s, p);
    assert s[q..] == s[p..][q - p..];
  }

  // ---------------------------------------------------------------- substrings

  predicate MatchesAt(s: string, i: nat, part: string)
    requires i <= |s|
  {
    |part| <= |s| - i && s[i..i + |part|] == part
  }

  /** `strstr`: the first match; `|s|` when there is none (`part` is never empty). */
  function FirstMatch(s: string, part: string): (n: nat)
    ensures n <= |s|
    ensures n < |s| ==> MatchesAt(s, n, part)
    ensures forall i | 0 <= i < n :: !MatchesAt(s, i, part)
  {
    if s == "" || MatchesAt(s, 0, part) then 0
    else
      var n := FirstMatch(s[1..], part);
      assert forall i | 1 <= i <= |s| :: MatchesAt(s, i, part) <==> MatchesAt(s[1..], i - 1, part);
      1 + n
  }

  lemma FirstMatchIs(s: string, part: string, n: nat)
    requires n < |s| && MatchesAt(s, n, part) && forall i | 0 <= i < n :: !MatchesAt(s, i, part)
    ensures FirstMatch(s, part) == n
  {
    var m := FirstMatch(s, part);
    assert !MatchesAt(s, m, part) || m >= n;
  }

  /** A first match does not move when text is added behind it. */
  lemma FirstMatchExtends(s: string, t: string, part: string)
    requires part != "" && FirstMatch(s, part) < |s|
    ensures FirstMatch(s + t, part) == FirstMatch(s, part)
  {
    hide FirstMatch;
    var n := FirstMatch(s, part);
    forall i | 0 <= i <= n ensures MatchesAt(s + t, i, part) == MatchesAt(s, i, part) {
      assert i + |part| <= |s| ==> (s + t)[i..i + |part|] == s[i..i + |part|];
      if i < n && MatchesAt(s + t, i, part) {
        // it would end before the match at n does
        assert n + |part| <= |s|;
      }
    }
    FirstMatchIs(s + t, part, n);
  }

  lemma MatchesShift(t: string, i: nat, part: string)
    requires i + 1 <= |t|
    ensures MatchesAt(t, i + 1, part) <==> MatchesAt(t[1..], i, part)
  {
    if |part| <= |t| - (i + 1) { assert t[i + 1..i + 1 + |part|] == t[1..][i..i + |part|]; }
  }

  /** Where the first part has no match, the search goes on behind it. */
  lemma {:induction false} SkipQuiet(a: string, b: string, part: string)
    requires forall i | 0 <= i < |a| :: !MatchesAt(a + b, i, part)
    ensures FirstMatch(a + b, part) == |a| + FirstMatch(b, part)
  {
    if a == "" {
      assert a + b == b;
    } else {
      var t := a + b;
      assert t[1..] == a[1..] + b;
      assert !MatchesAt(t, 0, part);
      forall i | 0 <= i < |a| - 1 ensures !MatchesAt(a[1..] + b, i, part) {
        assert !MatchesAt(t, i + 1, part);
        MatchesShift(t, i, part);
      }
      SkipQuiet(a[1..], b, part);
    }
  }

  /** `strstr` */
  method Search(s: string, part: string) returns (n: nat)
    ensures n == FirstMatch(s, part)
  {
    n := 0;
    assert s[0..] == s;
    while n < |s|
      invariant n <= |s| && FirstMatch(s, part) == n + FirstMatch(s[n..], part)
    {
      if |part| <= |s| - n && s[n..n + |part|] == part {
        assert MatchesAt(s[n..], 0, part) by { assert s[n..][0..|part|] == s[n..n + |part|]; }
        return;
      }
      assert !MatchesAt(s[n..], 0, part) by { assert |part| <= |s| - n ==> s[n..][0..|part|] == s[n..n + |part|]; }
      assert s[n..][1..] == s[n + 1..];
      n := n + 1;
    }
  }
}
