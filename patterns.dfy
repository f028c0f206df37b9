/** The URL pattern, as a left-to-right scanner. The bot's sanitizer removes
    `http\S+|www\.\S+` and the knowledge-base expansion script removes
    `http\S+`; both are DeleteUrls, with and without the `www.` branch.
    The module ends with the lemmas every scanner here shares about the text
    it leaves alone. */
module Patterns {
  import opened Builtins

  /** A URL match starts at the beginning of s: "http", or "www." when that
      branch is enabled, followed by at least one non-whitespace character.
      The greedy `\S+` then runs to the end of the non-whitespace run. */
  predicate UrlAt(s: string, www: bool) {
    Span(s, IsNonSpace) >= 5 && (s[..4] == "http" || (www && s[..4] == "www."))
  }

  /** re.sub(pattern, '', s): every match, found left to right, is removed. */
  function DeleteUrls(s: string, www: bool): (r: string)
    ensures |r| <= |s|
    decreases |s|
  {
    if s == [] then []
    else if UrlAt(s, www) then DeleteUrls(s[Span(s, IsNonSpace)..], www)
    else [s[0]] + DeleteUrls(s[1..], www)
  }

  /** No position of s starts a URL match. */
  predicate UrlFree(s: string, www: bool) {
    forall k :: 0 <= k < |s| ==> !UrlAt(s[k..], www)
  }

  /** Whitespace never starts a match, so it is kept. */
  lemma SpaceLed(t: string, www: bool)
    requires t == [] || IsSpace(t[0])
    ensures DeleteUrls(t, www) == [] || IsSpace(DeleteUrls(t, www)[0])
  {
    if t != [] {
      assert Span(t, IsNonSpace) == 0;
      assert DeleteUrls(t, www) == [t[0]] + DeleteUrls(t[1..], www);
    }
  }

  /** A deletion always ends at whitespace or at the end of the text, so a
      run of non-whitespace characters at the start of the result was kept
      from the start of the input. */
  lemma {:induction false} KeepsLeadingRun(s: string, www: bool, m: nat)
    requires m <= |DeleteUrls(s, www)|
    requires forall i :: 0 <= i < m ==> IsNonSpace(DeleteUrls(s, www)[i])
    ensures m <= |s| && DeleteUrls(s, www)[..m] == s[..m]
    decreases |s|
  {
    var r := DeleteUrls(s, www);
    if s == [] || m == 0 {
    } else if UrlAt(s, www) {
      UrlLeavesSpace(s, www);
      assert false;
    } else {
      var rest := DeleteUrls(s[1..], www);
      KeepsFirst(s, www);
      forall i | 0 <= i < m - 1 ensures IsNonSpace(rest[i]) {
        assert rest[i] == r[i + 1];
      }
      KeepsLeadingRun(s[1..], www, m - 1);
      assert s == [s[0]] + s[1..];
      PrefixCons(s[0], rest, s[1..], m);
    }
  }

  /** After a deletion the text goes on with whitespace, if at all. */
  lemma UrlLeavesSpace(s: string, www: bool)
    requires UrlAt(s, www)
    ensures DeleteUrls(s, www) == [] || IsSpace(DeleteUrls(s, www)[0])
  {
    SpaceLed(s[Span(s, IsNonSpace)..], www);
  }

  lemma KeepsFirst(s: string, www: bool)
    requires s != [] && !UrlAt(s, www)
    ensures DeleteUrls(s, www) == [s[0]] + DeleteUrls(s[1..], www)
  {
  }

  lemma PrefixCons<T>(x: T, a: seq<T>, b: seq<T>, m: nat)
    requires 0 < m && m - 1 <= |a| && m - 1 <= |b| && a[..m - 1] == b[..m - 1]
    ensures ([x] + a)[..m] == ([x] + b)[..m]
  {
    assert ([x] + a)[..m] == [x] + a[..m - 1];
    assert ([x] + b)[..m] == [x] + b[..m - 1];
  }

  /** A URL at the start of the result was already one at the start of the input. */
  lemma LeadingUrlKept(s: string, www: bool)
    requires UrlAt(DeleteUrls(s, www), www)
    ensures UrlAt(s, www)
  {
    var r := DeleteUrls(s, www);
    KeepsLeadingRun(s, www, 5);
    assert s[..5] == r[..5];
    assert forall i :: 0 <= i < 5 ==> IsNonSpace(s[i]);
    assert s[..4] == r[..4];
  }

  /** After the substitution no URL is left. */
  lemma {:induction false} DeleteUrlsLeavesNone(s: string, www: bool)
    ensures UrlFree(DeleteUrls(s, www), www)
    decreases |s|
  {
    var r := DeleteUrls(s, www);
    if s == [] {
    } else if UrlAt(s, www) {
      DeleteUrlsLeavesNone(s[Span(s, IsNonSpace)..], www);
    } else {
      var rest := DeleteUrls(s[1..], www);
      DeleteUrlsLeavesNone(s[1..], www);
      assert r == [s[0]] + rest;
      forall k | 0 <= k < |r| ensures !UrlAt(r[k..], www) {
        if k == 0 {
          if UrlAt(r, www) {
            LeadingUrlKept(s, www);
            assert false;
          }
        } else {
          assert r[k..] == rest[k - 1..];
        }
      }
    }
  }

  /** The substitution changes exactly the texts that hold a URL. */
  lemma {:induction false} DeleteUrlsFixpoint(s: string, www: bool)
    ensures DeleteUrls(s, www) == s <==> UrlFree(s, www)
    decreases |s|
  {
    DeleteUrlsLeavesNone(s, www);
    if s != [] && UrlFree(s, www) {
      assert !UrlAt(s[0..], www) && s[0..] == s;
      UrlFreeTail(s, www);
      DeleteUrlsFixpoint(s[1..], www);
    }
  }

  lemma UrlFreeTail(s: string, www: bool)
    requires s != [] && UrlFree(s, www)
    ensures UrlFree(s[1..], www)
  {
    forall k | 0 <= k < |s[1..]| ensures !UrlAt(s[1..][k..], www) {
      assert s[1..][k..] == s[k + 1..];
    }
  }

  /** A whitespace character ends every match, so the text on either side
      of it is scanned on its own and the character itself is kept: what
      lies outside the URLs survives the substitution. */
  lemma {:induction false} DeleteUrlsSplits(a: string, c: char, b: string, www: bool)
    requires IsSpace(c)
    ensures DeleteUrls(a + [c] + b, www) == DeleteUrls(a, www) + [c] + DeleteUrls(b, www)
    decreases |a|
  {
    if a == [] {
      SpaceKept(a, c, b, www);
    } else if UrlAt(a, www) {
      var n := Span(a, IsNonSpace);
      SplitDrops(a, c, b, www);
      DeleteUrlsSplits(a[n..], c, b, www);
    } else {
      SplitKeeps(a, c, b, www);
      DeleteUrlsSplits(a[1..], c, b, www);
    }
  }

  lemma SplitDrops(a: string, c: char, b: string, www: bool)
    requires IsSpace(c) && a != [] && UrlAt(a, www)
    ensures var n := Span(a, IsNonSpace);
            DeleteUrls(a + [c] + b, www) == DeleteUrls(a[n..] + [c] + b, www)
            && DeleteUrls(a, www) == DeleteUrls(a[n..], www)
  {
    UrlAtBeforeSpace(a, c, b, www);
    assert (a + [c] + b)[Span(a, IsNonSpace)..] == a[Span(a, IsNonSpace)..] + [c] + b;
  }

  lemma SplitKeeps(a: string, c: char, b: string, www: bool)
    requires IsSpace(c) && a != [] && !UrlAt(a, www)
    ensures DeleteUrls(a + [c] + b, www) == [a[0]] + DeleteUrls(a[1..] + [c] + b, www)
    ensures DeleteUrls(a, www) == [a[0]] + DeleteUrls(a[1..], www)
  {
    UrlAtBeforeSpace(a, c, b, www);
    KeepsFirst(a + [c] + b, www);
    assert (a + [c] + b)[1..] == a[1..] + [c] + b;
  }

  lemma SpaceKept(a: string, c: char, b: string, www: bool)
    requires IsSpace(c) && a == []
    ensures DeleteUrls(a + [c] + b, www) == DeleteUrls(a, www) + [c] + DeleteUrls(b, www)
  {
    var s := a + [c] + b;
    assert s == [c] + b && s[1..] == b;
    assert Span(s, IsNonSpace) == 0;
  }

  /** Whether a + [c] + b starts with a URL depends on a alone, and the
      match ends inside a. */
  lemma UrlAtBeforeSpace(a: string, c: char, b: string, www: bool)
    requires IsSpace(c) && a != []
    ensures Span(a + [c] + b, IsNonSpace) == Span(a, IsNonSpace)
    ensures UrlAt(a + [c] + b, www) <==> UrlAt(a, www)
  {
    SpanBeforeSpace(a, c, b);
    if Span(a, IsNonSpace) >= 5 {
      assert (a + [c] + b)[..4] == a[..4];
    }
  }

  /** The non-whitespace run at the start of a + [c] + b stays inside a. */
  lemma SpanBeforeSpace(a: string, c: char, b: string)
    requires IsSpace(c)
    ensures Span(a + [c] + b, IsNonSpace) == Span(a, IsNonSpace)
  {
    var s := a + [c] + b;
    var n := Span(a, IsNonSpace);
    assert forall i :: 0 <= i < n ==> s[i] == a[i];
    assert s[n] == if n < |a| then a[n] else c;
    SpanIs(s, IsNonSpace, n);
  }

  /** Text in which no match starts, here s[..m], is copied as it is, and
      the scan then goes on with what follows it: the characters before a
      URL survive even when the URL starts inside their non-space run. */
  lemma DeleteUrlsKeeps(s: string, m: nat, www: bool)
    requires m <= |s|
    requires forall k :: 0 <= k < m ==> !UrlAt(s[k..], www)
    ensures DeleteUrls(s, www) == s[..m] + DeleteUrls(s[m..], www)
  {
    var scan := (t: string) => DeleteUrls(t, www);
    forall k | 0 <= k < m
      ensures scan(s[k..]) == [s[k]] + scan(s[k + 1..])
    {
      assert s[k..][1..] == s[k + 1..];
    }
    CopiesPrefix(scan, s, m);
  }

  /** What every scanner here does outside its matches: when, at each of the
      first m positions of s, the scan copies one character and moves on,
      the first m characters are copied and the scan resumes at m. */
  lemma {:induction false} CopiesPrefix(scan: string -> string, s: string, m: nat)
    requires m <= |s|
    requires forall k :: 0 <= k < m ==> scan(s[k..]) == [s[k]] + scan(s[k + 1..])
    ensures scan(s) == s[..m] + scan(s[m..])
    decreases m
  {
    if m == 0 {
      assert s[0..] == s;
    } else {
      CopiesPrefix(scan, s, m - 1);
      assert s[..m] == s[..m - 1] + [s[m - 1]];
    }
  }

  /** The same for a scan that also carries a flag from one position to
      the next, as `\b` needs the character before. */
  lemma {:induction false} CopiesPrefixFlagged(scan: (string, bool) -> string, s: string, m: nat, flags: seq<bool>)
    requires m <= |s| && |flags| == m + 1
    requires forall k :: 0 <= k < m ==> scan(s[k..], flags[k]) == [s[k]] + scan(s[k + 1..], flags[k + 1])
    ensures scan(s, flags[0]) == s[..m] + scan(s[m..], flags[m])
    decreases m
  {
    if m == 0 {
      assert s[0..] == s;
    } else {
      CopiesPrefixFlagged(scan, s, m - 1, flags[..m]);
      assert s[..m] == s[..m - 1] + [s[m - 1]];
    }
  }
}
