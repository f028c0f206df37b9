/** The Python built-ins on strings and lists that the bot and its import
    scripts rely on (str.isspace, str.lower, `in`, str.strip, slicing,
    str.join, str.replace), restricted to ASCII wherever Python consults
    its Unicode tables. */
module Builtins {

  datatype Option<T> = None | Some(value: T)

  /** str.isspace() on ASCII, which is also the set that `\s` matches in a
      str pattern: tab, line feed, vertical tab, form feed, carriage
      return, the separators 0x1C to 0x1F, and the space. */
  predicate IsSpace(c: char) {
    c == ' ' || '\t' <= c <= '\r' || '\U{1C}' <= c <= '\U{1F}'
  }

  /** What `\S` matches. */
  predicate IsNonSpace(c: char) {
    !IsSpace(c)
  }

  /** The ASCII letters: what `[A-Z]` and `[a-z]` match under the `(?i)`
      flag, leaving out the four non-ASCII characters Python's case folding
      also lets them match. */
  predicate IsLetter(c: char) {
    'a' <= c <= 'z' || 'A' <= c <= 'Z'
  }

  /** The ASCII word characters: what `\w` matches on ASCII text, and so
      what a `\b` boundary separates from the rest there. On a str pattern
      Python's `\w` also matches every other Unicode letter and digit. */
  predicate IsWordChar(c: char) {
    IsLetter(c) || '0' <= c <= '9' || c == '_'
  }

  function LowerChar(c: char): char {
    if 'A' <= c <= 'Z' then (c as int + 32) as char else c
  }

  /** str.lower() */
  function Lower(s: string): (r: string)
    ensures |r| == |s|
    ensures forall i :: 0 <= i < |s| ==> r[i] == LowerChar(s[i])
  {
    if s == [] then [] else [LowerChar(s[0])] + Lower(s[1..])
  }

  /** s starts with w when case is ignored: what a literal matches under
      `(?i)`, for a w written in lower case. */
  predicate StartsFolded(s: string, w: string) {
    |w| <= |s| && forall i :: 0 <= i < |w| ==> LowerChar(s[i]) == w[i]
  }

  lemma LowerAppend(a: string, b: string)
    ensures Lower(a + b) == Lower(a) + Lower(b)
  {
    assert forall i :: 0 <= i < |a + b| ==> Lower(a + b)[i] == (Lower(a) + Lower(b))[i];
  }

  /** Concatenation regrouped; stated once so that long chains of `+` need
      not be re-associated inside larger proofs. */
  lemma Regroup<T>(x: seq<T>, a: seq<T>, b: seq<T>, c: seq<T>)
    ensures x + a + b + c == x + (a + b + c)
  {
  }

  /** No two adjacent characters of s are x then y, once case is folded. */
  predicate NoFoldedPair(s: string, x: char, y: char) {
    forall i :: 0 <= i < |s| - 1 ==> !(LowerChar(s[i]) == x && LowerChar(s[i + 1]) == y)
  }

  lemma NoFoldedPairConcat(a: string, b: string, x: char, y: char)
    requires NoFoldedPair(a, x, y) && NoFoldedPair(b, x, y)
    requires a == [] || b == [] || !(LowerChar(a[|a| - 1]) == x && LowerChar(b[0]) == y)
    ensures NoFoldedPair(a + b, x, y)
  {
    var s := a + b;
    forall i | 0 <= i < |s| - 1 ensures !(LowerChar(s[i]) == x && LowerChar(s[i + 1]) == y) {
      if i + 1 < |a| {
        assert s[i] == a[i] && s[i + 1] == a[i + 1];
      } else if i >= |a| {
        assert s[i] == b[i - |a|] && s[i + 1] == b[i + 1 - |a|];
      }
    }
  }

  /** A word holding a pair that the lower-cased text never shows is not
      in the lower-cased text. */
  lemma NotContainedByPair(s: string, w: string, k: nat)
    requires k + 1 < |w| && NoFoldedPair(s, w[k], w[k + 1])
    ensures !Contains(Lower(s), w)
  {
    var l := Lower(s);
    forall i | 0 <= i && i + |w| <= |l| ensures !OccursAt(l, w, i) {
      assert l[i..i + |w|][k] == l[i + k] && l[i..i + |w|][k + 1] == l[i + k + 1];
      assert !(l[i + k] == w[k] && l[i + k + 1] == w[k + 1]);
    }
    ContainsIff(l, w);
  }

  /** The length of the longest prefix of s all of whose characters satisfy p:
      the extent of a greedy `[...]*` at the start of s. */
  function Span(s: string, p: char -> bool): (n: nat)
    ensures n <= |s|
    ensures forall i :: 0 <= i < n ==> p(s[i])
    ensures n < |s| ==> !p(s[n])
  {
    if s != [] && p(s[0]) then 1 + Span(s[1..], p) else 0
  }

  /** The three facts Span promises determine it. */
  lemma SpanIs(s: string, p: char -> bool, n: nat)
    requires n <= |s|
    requires forall i :: 0 <= i < n ==> p(s[i])
    requires n < |s| ==> !p(s[n])
    ensures Span(s, p) == n
  {
  }

  /** w occurs in s at position i. */
  predicate OccursAt(s: string, w: string, i: int) {
    0 <= i && i + |w| <= |s| && s[i..i + |w|] == w
  }

  /** Python's `w in s` on strings. */
  predicate Contains(s: string, w: string)
    decreases |s|
  {
    |w| <= |s| && (s[..|w|] == w || Contains(s[1..], w))
  }

  lemma {:induction false} ContainsIff(s: string, w: string)
    ensures Contains(s, w) <==> exists i :: OccursAt(s, w, i)
    decreases |s|
  {
    if |w| > |s| {
    } else if s[..|w|] == w {
      assert OccursAt(s, w, 0);
    } else {
      ContainsIff(s[1..], w);
      if Contains(s, w) {
        var i :| OccursAt(s[1..], w, i);
        assert s[1..][i..i + |w|] == s[i + 1..i + 1 + |w|];
        assert OccursAt(s, w, i + 1);
      }
      if exists i :: OccursAt(s, w, i) {
        var i :| OccursAt(s, w, i);
        assert i != 0;
        assert s[1..][i - 1..i - 1 + |w|] == s[i..i + |w|];
        assert OccursAt(s[1..], w, i - 1);
      }
    }
  }

  /** Surrounding text never hides an occurrence. */
  lemma ContainsWithin(a: string, t: string, b: string, w: string)
    requires Contains(t, w)
    ensures Contains(a + t + b, w)
  {
    ContainsIff(t, w);
    var i :| OccursAt(t, w, i);
    assert (a + t + b)[|a| + i..|a| + i + |w|] == t[i..i + |w|];
    assert OccursAt(a + t + b, w, |a| + i);
    ContainsIff(a + t + b, w);
  }

  /** An occurrence of an occurrence is an occurrence. */
  lemma ContainsTransitive(s: string, w: string, v: string)
    requires Contains(s, w) && Contains(w, v)
    ensures Contains(s, v)
  {
    ContainsIff(s, w);
    ContainsIff(w, v);
    var i :| OccursAt(s, w, i);
    var j :| OccursAt(w, v, j);
    assert w == s[i..i + |w|] && v == w[j..j + |v|];
    assert forall k :: 0 <= k < |v| ==> v[k] == w[j + k] == s[i + j + k];
    assert OccursAt(s, v, i + j);
    ContainsIff(s, v);
  }

  /** str.lstrip() */
  function TrimStart(s: string): (r: string)
    ensures |r| <= |s| && r == s[|s| - |r|..]
    ensures r == [] || !IsSpace(r[0])
  {
    if s != [] && IsSpace(s[0]) then TrimStart(s[1..]) else s
  }

  /** lstrip removes whitespace only. */
  lemma {:induction false} TrimStartSpaces(s: string)
    ensures forall i :: 0 <= i < |s| - |TrimStart(s)| ==> IsSpace(s[i])
    decreases |s|
  {
    if s != [] && IsSpace(s[0]) {
      TrimStartSpaces(s[1..]);
      forall i | 0 <= i < |s| - |TrimStart(s)| ensures IsSpace(s[i]) {
        if i > 0 {
          assert s[i] == s[1..][i - 1];
        }
      }
    }
  }

  /** str.rstrip() */
  function TrimEnd(s: string): (r: string)
    ensures |r| <= |s| && r == s[..|r|]
    ensures r == [] || !IsSpace(r[|r| - 1])
  {
    if s != [] && IsSpace(s[|s| - 1]) then TrimEnd(s[..|s| - 1]) else s
  }

  /** rstrip removes whitespace only. */
  lemma {:induction false} TrimEndSpaces(s: string)
    ensures forall i :: |TrimEnd(s)| <= i < |s| ==> IsSpace(s[i])
    decreases |s|
  {
    if s != [] && IsSpace(s[|s| - 1]) {
      TrimEndSpaces(s[..|s| - 1]);
      forall i | |TrimEnd(s)| <= i < |s| ensures IsSpace(s[i]) {
        if i < |s| - 1 {
          assert s[i] == s[..|s| - 1][i];
        }
      }
    }
  }

  /** str.strip(): s without the whitespace at either end, and nothing else removed. */
  function Strip(s: string): (r: string)
    ensures r == [] || (!IsSpace(r[0]) && !IsSpace(r[|r| - 1]))
  {
    TrimEnd(TrimStart(s))
  }

  /** What Strip removes is whitespace at either end, and nothing else. */
  lemma StripOccurs(s: string)
    ensures exists i :: OccursAt(s, Strip(s), i)
                     && (forall j :: 0 <= j < i ==> IsSpace(s[j]))
                     && (forall j :: i + |Strip(s)| <= j < |s| ==> IsSpace(s[j]))
  {
    var t := TrimStart(s);
    var r := TrimEnd(t);
    var k := |s| - |t|;
    assert r == Strip(s);
    assert t == s[k..];
    assert OccursAt(s, r, k) by {
      assert s[k..][..|r|] == s[k..k + |r|];
    }
    assert forall j :: 0 <= j < k ==> IsSpace(s[j]) by {
      TrimStartSpaces(s);
    }
    assert forall j :: k + |r| <= j < |s| ==> IsSpace(s[j]) by {
      TrimEndSpaces(t);
      forall j | k + |r| <= j < |s| ensures IsSpace(s[j]) {
        assert s[j] == t[j - k];
      }
    }
  }

  /** xs[:n] */
  function Take<T>(xs: seq<T>, n: nat): (r: seq<T>)
    ensures |r| <= n && r <= xs
    ensures |r| < n ==> r == xs
  {
    if |xs| <= n then xs else xs[..n]
  }

  /** A prefix of exactly n elements is what Take keeps. */
  lemma TakePrefix<T>(a: seq<T>, b: seq<T>, n: nat)
    requires a <= b && |a| == n
    ensures Take(b, n) == a
  {
  }

  /** xs[-n:] for a positive n. */
  function TakeLast<T>(xs: seq<T>, n: nat): (r: seq<T>)
    requires n > 0
    ensures |r| <= n && |r| <= |xs| && r == xs[|xs| - |r|..]
    ensures |r| < n ==> r == xs
  {
    if |xs| <= n then xs else xs[|xs| - n..]
  }

  /** sep.join(parts) */
  function Join(parts: seq<string>, sep: string): string {
    if parts == [] then ""
    else if |parts| == 1 then parts[0]
    else parts[0] + sep + Join(parts[1..], sep)
  }

  /** Joining one more part adds the separator and that part. */
  lemma {:induction false} JoinAppend(parts: seq<string>, p: string, sep: string)
    requires parts != []
    ensures Join(parts + [p], sep) == Join(parts, sep) + sep + p
    decreases |parts|
  {
    if |parts| > 1 {
      assert (parts + [p])[1..] == parts[1..] + [p];
      JoinAppend(parts[1..], p, sep);
    }
  }

  /** s.replace(pat, repl) for a non-empty pat: every non-overlapping
      occurrence, found left to right, is replaced. */
  function Replace(s: string, pat: string, repl: string): string
    requires pat != []
    decreases |s|
  {
    if |s| < |pat| then s
    else if s[..|pat|] == pat then repl + Replace(s[|pat|..], pat, repl)
    else [s[0]] + Replace(s[1..], pat, repl)
  }

  /** Replacing every `c` by a text that holds no `c` leaves no `c`. */
  lemma {:induction false} ReplaceRemovesChar(s: string, c: char, repl: string)
    requires c !in repl
    ensures c !in Replace(s, [c], repl)
    decreases |s|
  {
    if |s| >= 1 {
      ReplaceRemovesChar(s[1..], c, repl);
    }
  }

  /** Replace introduces no character that neither s nor repl holds. */
  lemma {:induction false} ReplaceChars(s: string, pat: string, repl: string, c: char)
    requires pat != []
    requires c !in s && c !in repl
    ensures c !in Replace(s, pat, repl)
    decreases |s|
  {
    if |s| < |pat| {
    } else if s[..|pat|] == pat {
      ReplaceChars(s[|pat|..], pat, repl, c);
    } else {
      ReplaceChars(s[1..], pat, repl, c);
    }
  }
}
