/** DataSanitizer.clean: five regular-expression substitutions applied in a
    fixed order (URLs, e-mail addresses, honorific plus name, location
    phrases, whitespace runs), then str.strip and a cut to 1000 characters.
    Each substitution is a left-to-right scanner that, like re.sub, looks
    for a match at each position of its own input and resumes after it. */
module Sanitizer {
  import opened Builtins
  import opened Patterns

  const MaxLength: nat := 1000

  /** What an honorific and the name after it become. */
  const Placeholder := "the therapist"


  // ---------------------------------------------------------------- `\S+@\S+`

  /** An e-mail match starts at the beginning of s: the non-whitespace run
      there holds an '@' that is neither its first nor its last character.
      The greedy `\S+` on both sides makes the match the whole run. */
  predicate EmailAt(s: string) {
    var n := Span(s, IsNonSpace);
    n >= 3 && exists j :: 1 <= j <= n - 2 && s[j] == '@'
  }

  function DeleteEmails(s: string): (r: string)
    ensures |r| <= |s|
    decreases |s|
  {
    if s == [] then []
    else if EmailAt(s) then DeleteEmails(s[Span(s, IsNonSpace)..])
    else [s[0]] + DeleteEmails(s[1..])
  }

  predicate EmailFree(s: string) {
    forall k :: 0 <= k < |s| ==> !EmailAt(s[k..])
  }

  lemma EmailSpaceLed(t: string)
    requires t == [] || IsSpace(t[0])
    ensures DeleteEmails(t) == [] || IsSpace(DeleteEmails(t)[0])
  {
    if t != [] {
      assert Span(t, IsNonSpace) == 0;
      assert DeleteEmails(t) == [t[0]] + DeleteEmails(t[1..]);
    }
  }

  /** A run that does not start a match keeps all of its characters: no
      later position of the run can start one either. */
  lemma {:induction false} KeepsRunWithoutEmail(s: string)
    requires !EmailAt(s)
    ensures DeleteEmails(s) == s[..Span(s, IsNonSpace)] + DeleteEmails(s[Span(s, IsNonSpace)..])
    decreases |s|
  {
    var n := Span(s, IsNonSpace);
    if n > 0 {
      var t := s[1..];
      NoEmailInRunTail(s);
      KeepsRunWithoutEmail(t);
      KeepsFirstChar(s);
      assert t[n - 1..] == s[n..];
      ConsPrefix(s, n, DeleteEmails(s[n..]));
    }
  }

  lemma KeepsFirstChar(s: string)
    requires s != [] && !EmailAt(s)
    ensures DeleteEmails(s) == [s[0]] + DeleteEmails(s[1..])
  {
  }

  lemma ConsPrefix(s: string, n: nat, x: string)
    requires 0 < n <= |s|
    ensures [s[0]] + (s[1..][..n - 1] + x) == s[..n] + x
  {
    assert s[1..][..n - 1] == s[1..n];
    assert s[..n] == [s[0]] + s[1..n];
  }

  /** Dropping the first character of a run without a match leaves a
      shorter run without one. */
  lemma NoEmailInRunTail(s: string)
    requires !EmailAt(s) && Span(s, IsNonSpace) > 0
    ensures Span(s[1..], IsNonSpace) == Span(s, IsNonSpace) - 1 && !EmailAt(s[1..])
  {
    var n := Span(s, IsNonSpace);
    var t := s[1..];
    forall j: int | 1 <= j && j + 3 <= n ensures t[j] != '@' {
      assert t[j] == s[j + 1];
    }
  }

  lemma LeadingEmailKept(s: string)
    requires !EmailAt(s)
    ensures !EmailAt(DeleteEmails(s))
  {
    var n := Span(s, IsNonSpace);
    var r := DeleteEmails(s);
    KeepsRunWithoutEmail(s);
    EmailSpaceLed(s[n..]);
    assert r[..n] == s[..n];
    SpanIs(r, IsNonSpace, n);
    assert forall j :: 0 <= j < n ==> r[j] == s[j];
  }

  /** After the substitution no e-mail address is left. */
  lemma {:induction false} DeleteEmailsLeavesNone(s: string)
    ensures EmailFree(DeleteEmails(s))
    decreases |s|
  {
    var r := DeleteEmails(s);
    if s == [] {
    } else if EmailAt(s) {
      DeleteEmailsLeavesNone(s[Span(s, IsNonSpace)..]);
    } else {
      var rest := DeleteEmails(s[1..]);
      DeleteEmailsLeavesNone(s[1..]);
      assert r == [s[0]] + rest;
      forall k | 0 <= k < |r| ensures !EmailAt(r[k..]) {
        if k == 0 {
          LeadingEmailKept(s);
        } else {
          assert r[k..] == rest[k - 1..];
        }
      }
    }
  }

  /** The substitution changes exactly the texts that hold an address. */
  lemma {:induction false} DeleteEmailsFixpoint(s: string)
    ensures DeleteEmails(s) == s <==> EmailFree(s)
    decreases |s|
  {
    if s != [] && EmailFree(s) {
      assert !EmailAt(s) by {
        assert !EmailAt(s[0..]) && s[0..] == s;
      }
      KeepsFirstChar(s);
      EmailFreeTail(s);
      DeleteEmailsFixpoint(s[1..]);
    } else if s != [] {
      DeleteEmailsLeavesNone(s);
    }
  }

  lemma EmailFreeTail(s: string)
    requires s != [] && EmailFree(s)
    ensures EmailFree(s[1..])
  {
    forall k | 0 <= k < |s[1..]| ensures !EmailAt(s[1..][k..]) {
      assert s[1..][k..] == s[k + 1..];
    }
  }

  // ------------------------------------------------- names and locations

  /** `\s+[A-Z][a-z]+` under `(?i)` at the start of s: a whitespace run and
      then a word of at least two letters, both taken greedily. Returns the
      length matched, or 0 when there is no match. */
  function SpacedWordLen(s: string): (n: nat)
    ensures n <= |s|
  {
    var w := Span(s, IsSpace);
    if w == 0 then 0
    else
      var l := Span(s[w..], IsLetter);
      if l < 2 then 0 else w + l
  }

  /** The alternatives of `(dr\.|mr\.|mrs\.|ms\.)` under `(?i)`. */
  predicate IsHonorific(h: string) {
    (|h| == 3 && (StartsFolded(h, "dr.") || StartsFolded(h, "mr.") || StartsFolded(h, "ms.")))
    || (|h| == 4 && StartsFolded(h, "mrs."))
  }

  /** The length of the honorific that s starts with, or 0. */
  function HonorificLen(s: string): (n: nat)
    ensures n <= |s|
  {
    if StartsFolded(s, "dr.") || StartsFolded(s, "mr.") || StartsFolded(s, "ms.") then 3
    else if StartsFolded(s, "mrs.") then 4
    else 0
  }

  /** A match of `(?i)\b(dr\.|mr\.|mrs\.|ms\.)\s+[A-Z][a-z]+` at the start of
      s, where afterWord says whether the character before s is a word
      character (the `\b` then fails, since every honorific starts with a
      letter). Returns the length matched, or 0. */
  function NameLen(s: string, afterWord: bool): (n: nat)
    ensures n <= |s|
  {
    var h := HonorificLen(s);
    if afterWord || h == 0 then 0
    else
      var t := SpacedWordLen(s[h..]);
      if t == 0 then 0 else h + t
  }

  /** re.sub of the honorific pattern by Placeholder. */
  function ReplaceNames(s: string, afterWord: bool): string
    decreases |s|
  {
    if s == [] then []
    else
      var n := NameLen(s, afterWord);
      if n > 0 then Placeholder + ReplaceNames(s[n..], IsWordChar(s[n - 1]))
      else [s[0]] + ReplaceNames(s[1..], IsWordChar(s[0]))
  }

  /** The alternatives of `(serving|located in|office in)` under `(?i)`. */
  predicate IsLocationPhrase(p: string) {
    (|p| == 7 && StartsFolded(p, "serving"))
    || (|p| == 10 && StartsFolded(p, "located in"))
    || (|p| == 9 && StartsFolded(p, "office in"))
  }

  /** The length of the location phrase that s starts with, or 0. */
  function PhraseLen(s: string): (n: nat)
    ensures n <= |s|
  {
    if StartsFolded(s, "serving") then 7
    else if StartsFolded(s, "located in") then 10
    else if StartsFolded(s, "office in") then 9
    else 0
  }

  /** A match of `(?i)(serving|located in|office in)\s+[A-Z][a-z]+` at the
      start of s. The pattern has no `\b`, so no context is needed. */
  function LocationLen(s: string): (n: nat)
    ensures n <= |s|
  {
    var p := PhraseLen(s);
    if p == 0 then 0
    else
      var t := SpacedWordLen(s[p..]);
      if t == 0 then 0 else p + t
  }

  /** re.sub of the location pattern by the empty string. */
  function DeleteLocations(s: string): (r: string)
    ensures |r| <= |s|
    decreases |s|
  {
    if s == [] then []
    else
      var n := LocationLen(s);
      if n > 0 then DeleteLocations(s[n..])
      else [s[0]] + DeleteLocations(s[1..])
  }

  predicate AllSpace(w: string) {
    forall i :: 0 <= i < |w| ==> IsSpace(w[i])
  }

  predicate AllLetters(w: string) {
    forall i :: 0 <= i < |w| ==> IsLetter(w[i])
  }

  /** The part of a name or location match after its keyword. */
  lemma SpacedWordLenOf(w: string, name: string, rest: string)
    requires w != [] && AllSpace(w)
    requires |name| >= 2 && AllLetters(name)
    requires rest == [] || !IsLetter(rest[0])
    ensures SpacedWordLen(w + name + rest) == |w| + |name|
  {
    var s := w + name + rest;
    SpanIs(s, IsSpace, |w|);
    assert s[|w|..] == name + rest;
    SpanIs(name + rest, IsLetter, |name|);
  }

  lemma HonorificLenOf(h: string, t: string)
    requires IsHonorific(h)
    ensures HonorificLen(h + t) == |h|
  {
    var s := h + t;
    assert forall i :: 0 <= i < |h| ==> s[i] == h[i];
    if |h| == 4 {
      assert LowerChar(s[2]) == 's';
    }
  }

  lemma PhraseLenOf(p: string, t: string)
    requires IsLocationPhrase(p)
    ensures PhraseLen(p + t) == |p|
  {
    var s := p + t;
    assert forall i :: 0 <= i < |p| ==> s[i] == p[i];
    assert LowerChar(s[0]) == LowerChar(p[0]);
  }

  /** At a word boundary, an honorific of any case, whitespace and a word of
      two or more letters of any case become Placeholder; scanning goes on
      after the word. */
  lemma ReplacesHonorificAndName(h: string, w: string, name: string, rest: string)
    requires IsHonorific(h)
    requires w != [] && AllSpace(w)
    requires |name| >= 2 && AllLetters(name)
    requires rest == [] || !IsLetter(rest[0])
    ensures ReplaceNames(h + w + name + rest, false) == Placeholder + ReplaceNames(rest, true)
  {
    var s := h + w + name + rest;
    var n := |h| + |w| + |name|;
    assert NameLen(s, false) == n by {
      NameLenOf(h, w, name, rest);
    }
    assert s[n..] == rest;
    assert IsWordChar(s[n - 1]) by {
      assert s[n - 1] == name[|name| - 1];
    }
  }

  lemma NameLenOf(h: string, w: string, name: string, rest: string)
    requires IsHonorific(h)
    requires w != [] && AllSpace(w)
    requires |name| >= 2 && AllLetters(name)
    requires rest == [] || !IsLetter(rest[0])
    ensures NameLen(h + w + name + rest, false) == |h| + |w| + |name|
  {
    var s := h + w + name + rest;
    HonorificLenOf(h, w + name + rest);
    assert s == h + (w + name + rest);
    assert s[|h|..] == w + name + rest;
    SpacedWordLenOf(w, name, rest);
  }

  /** After a word character the `\b` fails and the honorific is kept. */
  lemma KeepsHonorificAfterWord(s: string)
    requires s != []
    ensures ReplaceNames(s, true) == [s[0]] + ReplaceNames(s[1..], IsWordChar(s[0]))
  {
  }

  /** Whether the character before position k of s is a word character,
      given afterWord for the character before s. */
  function Before(s: string, k: nat, afterWord: bool): bool
    requires k <= |s|
  {
    if k == 0 then afterWord else IsWordChar(s[k - 1])
  }

  /** No position of s starts a name match. */
  predicate NameFree(s: string, afterWord: bool) {
    forall k :: 0 <= k < |s| ==> NameLen(s[k..], Before(s, k, afterWord)) == 0
  }

  /** Text in which no match starts, here s[..m], is copied as it is, and
      the scan then goes on with what follows it, knowing the character
      before. */
  lemma ReplaceNamesKeeps(s: string, m: nat, afterWord: bool)
    requires m <= |s|
    requires forall k :: 0 <= k < m ==> NameLen(s[k..], Before(s, k, afterWord)) == 0
    ensures ReplaceNames(s, afterWord) == s[..m] + ReplaceNames(s[m..], Before(s, m, afterWord))
  {
    var flags := seq(m + 1, k requires 0 <= k <= m => Before(s, k, afterWord));
    forall k | 0 <= k < m
      ensures ReplaceNames(s[k..], flags[k]) == [s[k]] + ReplaceNames(s[k + 1..], flags[k + 1])
    {
      NameKeptStep(s[k..], flags[k]);
      assert s[k..][1..] == s[k + 1..];
    }
    CopiesPrefixFlagged(ReplaceNames, s, m, flags);
  }

  /** A text without a name match is left as it is. */
  lemma ReplaceNamesFixpoint(s: string, afterWord: bool)
    requires NameFree(s, afterWord)
    ensures ReplaceNames(s, afterWord) == s
  {
    ReplaceNamesKeeps(s, |s|, afterWord);
    assert s[..|s|] == s && s[|s|..] == [];
  }

  lemma NameKeptStep(s: string, afterWord: bool)
    requires s != [] && NameLen(s, afterWord) == 0
    ensures ReplaceNames(s, afterWord) == [s[0]] + ReplaceNames(s[1..], IsWordChar(s[0]))
  {
  }

  /** A location phrase of any case, whitespace and a word of two or more
      letters of any case are deleted; scanning goes on after the word. */
  lemma DeletesLocation(p: string, w: string, name: string, rest: string)
    requires IsLocationPhrase(p)
    requires w != [] && AllSpace(w)
    requires |name| >= 2 && AllLetters(name)
    requires rest == [] || !IsLetter(rest[0])
    ensures DeleteLocations(p + w + name + rest) == DeleteLocations(rest)
  {
    var s := p + w + name + rest;
    LocationLenOf(p, w, name, rest);
    assert s[|p| + |w| + |name|..] == rest;
  }

  lemma LocationLenOf(p: string, w: string, name: string, rest: string)
    requires IsLocationPhrase(p)
    requires w != [] && AllSpace(w)
    requires |name| >= 2 && AllLetters(name)
    requires rest == [] || !IsLetter(rest[0])
    ensures LocationLen(p + w + name + rest) == |p| + |w| + |name|
  {
    var s := p + w + name + rest;
    PhraseLenOf(p, w + name + rest);
    assert s == p + (w + name + rest);
    assert s[|p|..] == w + name + rest;
    SpacedWordLenOf(w, name, rest);
  }

  /** The location pattern has no `\b`: a phrase is deleted even when it
      ends a longer word, as "observing Houston" becomes "ob". */
  lemma DeletesLocationInsideWord(c: char, p: string, w: string, name: string, rest: string)
    requires IsLocationPhrase(p)
    requires w != [] && AllSpace(w)
    requires |name| >= 2 && AllLetters(name)
    requires rest == [] || !IsLetter(rest[0])
    ensures DeleteLocations([c] + p + w + name + rest) == [c] + DeleteLocations(rest)
  {
    var t := w + name + rest;
    var a := DeleteLocations([c] + p + t);
    var b := DeleteLocations(p + t);
    assert a == [c] + b by { KeepsBeforePhrase(c, p, t); }
    assert b == DeleteLocations(rest) by {
      DeletesLocation(p, w, name, rest);
      Regroup(p, w, name, rest);
    }
    Regroup([c] + p, w, name, rest);
  }

  /** No location match starts one character before a location phrase. */
  lemma KeepsBeforePhrase(c: char, p: string, t: string)
    requires IsLocationPhrase(p)
    ensures DeleteLocations([c] + p + t) == [c] + DeleteLocations(p + t)
  {
    var s := [c] + p + t;
    NoPhraseBeforePhrase(c, p, t);
    assert s[1..] == p + t;
  }

  /** No two of the location phrases overlap with an offset of one. */
  lemma NoPhraseBeforePhrase(c: char, p: string, t: string)
    requires IsLocationPhrase(p)
    ensures PhraseLen([c] + p + t) == 0
  {
    var s := [c] + p + t;
    assert s[1] == p[0] && s[2] == p[1];
    assert LowerChar(p[0]) == 'o' ==> LowerChar(p[1]) == 'f';
  }

  /** No position of s starts a location match. */
  predicate LocationFree(s: string) {
    forall k :: 0 <= k < |s| ==> LocationLen(s[k..]) == 0
  }

  /** Text in which no match starts, here s[..m], is copied as it is, and
      the scan then goes on with what follows it. */
  lemma DeleteLocationsKeeps(s: string, m: nat)
    requires m <= |s|
    requires forall k :: 0 <= k < m ==> LocationLen(s[k..]) == 0
    ensures DeleteLocations(s) == s[..m] + DeleteLocations(s[m..])
  {
    forall k | 0 <= k < m
      ensures DeleteLocations(s[k..]) == [s[k]] + DeleteLocations(s[k + 1..])
    {
      LocationKeptStep(s[k..]);
      assert s[k..][1..] == s[k + 1..];
    }
    CopiesPrefix(DeleteLocations, s, m);
  }

  lemma LocationKeptStep(s: string)
    requires s != [] && LocationLen(s) == 0
    ensures DeleteLocations(s) == [s[0]] + DeleteLocations(s[1..])
  {
  }

  /** A match anywhere makes the text shorter. */
  lemma {:induction false} LocationShortens(s: string, k: nat)
    requires k < |s| && LocationLen(s[k..]) > 0
    ensures |DeleteLocations(s)| < |s|
    decreases k
  {
    if LocationLen(s) == 0 {
      assert k > 0 by { assert s[0..] == s; }
      assert s[1..][k - 1..] == s[k..];
      LocationShortens(s[1..], k - 1);
    }
  }

  /** The substitution changes exactly the texts that hold a location match. */
  lemma DeleteLocationsFixpoint(s: string)
    ensures DeleteLocations(s) == s <==> LocationFree(s)
  {
    if LocationFree(s) {
      DeleteLocationsKeeps(s, |s|);
      assert s[..|s|] == s;
    } else {
      var k :| 0 <= k < |s| && LocationLen(s[k..]) != 0;
      LocationShortens(s, k);
    }
  }

  /** The scan resumes after each deletion and never looks back, so a
      deletion can join the text around it into a new match: one pass turns
      "officeserving Xx in Yy" into "office in Yy", and a second pass
      deletes that too. */
  lemma DeleteLocationsNotIdempotent(a: string, m: string, t: string)
    requires a == "office" && m == "serving Xx" && t == " in Yy"
    ensures DeleteLocations(a + m + t) == a + t
    ensures DeleteLocations(DeleteLocations(a + m + t)) == []
  {
    assert a + m + t == a + (m + t);
    KeepsOffice(a, m + t);
    DeletesServing(m, t);
    KeepsTail(t);
    DeletesOfficeIn(a, t);
  }

  /** "serving Xx" is a whole match when no letter follows it. */
  lemma DeletesServing(m: string, t: string)
    requires m == "serving Xx" && (t == [] || !IsLetter(t[0]))
    ensures DeleteLocations(m + t) == DeleteLocations(t)
  {
    var p, w, n := "serving", " ", "Xx";
    assert m == p + w + n;
    assert m + t == p + w + n + t;
    DeletesLocation(p, w, n, t);
  }

  /** " in Yy" holds no s, l or o, so nothing in it can open a match. */
  lemma KeepsTail(t: string)
    requires t == " in Yy"
    ensures DeleteLocations(t) == t
  {
    forall i | 0 <= i < |t| ensures LowerChar(t[i]) != 's' && LowerChar(t[i]) != 'l' && LowerChar(t[i]) != 'o' { }
    KeepsPlain(t);
  }

  /** What the first pass leaves is itself one whole match. */
  lemma DeletesOfficeIn(a: string, t: string)
    requires a == "office" && t == " in Yy"
    ensures DeleteLocations(a + t) == []
  {
    assert a + t == "office in" + " " + "Yy" + [];
    DeletesLocation("office in", " ", "Yy", []);
  }

  /** "office" followed by anything but whitespace opens no match. */
  lemma KeepsOffice(a: string, b: string)
    requires a == "office" && b != [] && !IsSpace(b[0])
    ensures DeleteLocations(a + b) == a + DeleteLocations(b)
  {
    var s := a + b;
    forall k | 0 <= k < 6 ensures LocationLen(s[k..]) == 0 {
      NoPhraseStart(s[k..]);
    }
    DeleteLocationsKeeps(s, 6);
    assert s[..6] == a && s[6..] == b;
  }

  /** Text in which no character can begin a location phrase is kept. */
  lemma KeepsPlain(t: string)
    requires forall i :: 0 <= i < |t| ==> LowerChar(t[i]) != 's' && LowerChar(t[i]) != 'l' && LowerChar(t[i]) != 'o'
    ensures DeleteLocations(t) == t
  {
    forall k | 0 <= k < |t| ensures LocationLen(t[k..]) == 0 {
      NoPhraseStart(t[k..]);
    }
    DeleteLocationsFixpoint(t);
  }

  /** No location phrase starts with a letter other than s, l or o, nor
      with an "s" that no "e" follows, nor with an "o" or "l" whose phrase
      lacks its space. */
  lemma NoPhraseStart(t: string)
    requires t != []
    requires LowerChar(t[0]) == 's' ==> |t| >= 2 && LowerChar(t[1]) != 'e'
    requires LowerChar(t[0]) == 'o' ==> |t| >= 7 && t[6] != ' '
    requires LowerChar(t[0]) == 'l' ==> |t| >= 8 && t[7] != ' '
    ensures LocationLen(t) == 0
  {
  }

  // ------------------------------------------------------------ whitespace

  /** s with its whitespace removed: the text that no whitespace rewrite touches. */
  function Visible(s: string): string
    decreases |s|
  {
    if s == [] then []
    else if IsSpace(s[0]) then Visible(s[1..])
    else [s[0]] + Visible(s[1..])
  }

  lemma {:induction false} VisibleSkipsSpace(s: string, n: nat)
    requires n <= |s| && AllSpace(s[..n])
    ensures Visible(s) == Visible(s[n..])
    decreases n
  {
    if n > 0 {
      assert IsSpace(s[..n][0]);
      assert s[1..][..n - 1] == s[..n][1..];
      VisibleSkipsSpace(s[1..], n - 1);
      assert s[1..][n - 1..] == s[n..];
    }
  }

  /** Whitespace that is already single plain spaces. */
  predicate SingleSpaced(s: string) {
    (forall i :: 0 <= i < |s| && IsSpace(s[i]) ==> s[i] == ' ')
    && (forall i, j :: 0 <= i && j == i + 1 < |s| ==> !(IsSpace(s[i]) && IsSpace(s[j])))
  }

  /** re.sub(r'\s+', ' ', s): each run of whitespace becomes one space. */
  function CollapseSpaces(s: string): (r: string)
    ensures |r| <= |s|
    ensures r == [] <==> s == []
    ensures s != [] ==> (IsSpace(r[0]) <==> IsSpace(s[0]))
    ensures SingleSpaced(r)
    decreases |s|
  {
    if s == [] then []
    else if IsSpace(s[0]) then " " + CollapseSpaces(s[Span(s, IsSpace)..])
    else [s[0]] + CollapseSpaces(s[1..])
  }

  /** Collapsing whitespace keeps every other character, in order. */
  lemma {:induction false} CollapseKeepsText(s: string)
    ensures Visible(CollapseSpaces(s)) == Visible(s)
    decreases |s|
  {
    if s == [] {
    } else if IsSpace(s[0]) {
      var n := Span(s, IsSpace);
      CollapseKeepsText(s[n..]);
      VisibleSkipsSpace(s, n);
      assert Visible(" " + CollapseSpaces(s[n..])) == Visible(CollapseSpaces(s[n..]));
    } else {
      CollapseKeepsText(s[1..]);
    }
  }

  /** A whitespace run between two visible characters becomes exactly one
      space, and the text on either side of it is collapsed on its own. */
  lemma {:induction false} CollapseSplits(a: string, w: string, b: string)
    requires a == [] || !IsSpace(a[|a| - 1])
    requires w != [] && AllSpace(w)
    requires b == [] || !IsSpace(b[0])
    ensures CollapseSpaces(a + w + b) == CollapseSpaces(a) + " " + CollapseSpaces(b)
    decreases |a|
  {
    CollapseRun(w, b);
    CollapseBefore(a, w + b);
    Regrouped(CollapseSpaces, a, w, b);
  }

  /** The last step of CollapseSplits, over f as a function value. */
  lemma Regrouped(f: string -> string, a: string, w: string, b: string)
    requires f(w + b) == " " + f(b)
    requires f(a + (w + b)) == f(a) + f(w + b)
    ensures f(a + w + b) == f(a) + " " + f(b)
  {
    assert a + w + b == a + (w + b);
  }

  /** A text that ends with a visible character is collapsed on its own
      when whitespace follows it. */
  lemma CollapseBefore(a: string, r: string)
    requires EndsVisible(a)
    requires r != [] && IsSpace(r[0])
    ensures CollapseSpaces(a + r) == CollapseSpaces(a) + CollapseSpaces(r)
  {
    forall t | EndsVisible(t) && t != []
      ensures |CollapseTail(t)| < |t| && EndsVisible(CollapseTail(t))
      ensures CollapseSpaces(t + r) == CollapseHead(t) + CollapseSpaces(CollapseTail(t) + r)
      ensures CollapseSpaces(t) == CollapseHead(t) + CollapseSpaces(CollapseTail(t))
    {
      CollapseFront(t, r);
    }
    SplitsBefore(CollapseSpaces, CollapseHead, CollapseTail, a, r);
  }

  /** The induction behind CollapseBefore, over the scanner f as a function
      value: when each step emits hd(t) and goes on with tl(t), whether r
      follows or not, f distributes over a + r. */
  lemma {:induction false} SplitsBefore(f: string -> string, hd: string -> string,
                                        tl: string -> string, a: string, r: string)
    requires EndsVisible(a)
    requires f([]) == []
    requires Steps(f, hd, tl, r)
    ensures f(a + r) == f(a) + f(r)
    decreases |a|
  {
    if a == [] {
      assert a + r == r;
    } else {
      var h, x := hd(a), tl(a);
      SplitsBefore(f, hd, tl, x, r);
      assert h + (f(x) + f(r)) == h + f(x) + f(r);
    }
  }

  /** Each step of f on a text t that ends with a visible character emits
      hd(t) and goes on with the shorter tl(t), whether r follows or not. */
  ghost predicate Steps(f: string -> string, hd: string -> string, tl: string -> string, r: string) {
    forall t {:trigger hd(t)} :: EndsVisible(t) && t != [] ==>
      |tl(t)| < |t| && EndsVisible(tl(t))
      && f(t + r) == hd(t) + f(tl(t) + r) && f(t) == hd(t) + f(tl(t))
  }

  /** a is empty or ends with a visible character. */
  predicate EndsVisible(a: string) {
    a == [] || !IsSpace(a[|a| - 1])
  }

  /** What one step of CollapseSpaces emits. */
  function CollapseHead(a: string): string {
    if a == [] then [] else if IsSpace(a[0]) then " " else [a[0]]
  }

  /** Where CollapseSpaces goes on after one step. */
  function CollapseTail(a: string): string {
    if a == [] then [] else if IsSpace(a[0]) then a[Span(a, IsSpace)..] else a[1..]
  }

  /** One step of CollapseSpaces on a text a that ends with a visible
      character, the same whether rest follows or not. */
  lemma CollapseFront(a: string, rest: string)
    requires a != [] && EndsVisible(a)
    ensures |CollapseTail(a)| < |a| && EndsVisible(CollapseTail(a))
    ensures CollapseSpaces(a + rest) == CollapseHead(a) + CollapseSpaces(CollapseTail(a) + rest)
    ensures CollapseSpaces(a) == CollapseHead(a) + CollapseSpaces(CollapseTail(a))
  {
    CollapseStep(a + rest);
    CollapseStep(a);
    HeadTailAppend(a, rest);
  }

  lemma CollapseStep(s: string)
    requires s != []
    ensures CollapseSpaces(s) == CollapseHead(s) + CollapseSpaces(CollapseTail(s))
  {
  }

  /** The step of a text that ends with a visible character does not look
      past its end. */
  lemma HeadTailAppend(a: string, rest: string)
    requires a != [] && EndsVisible(a)
    ensures CollapseHead(a + rest) == CollapseHead(a)
    ensures CollapseTail(a + rest) == CollapseTail(a) + rest
    ensures |CollapseTail(a)| < |a| && EndsVisible(CollapseTail(a))
  {
    if IsSpace(a[0]) {
      var n := Span(a, IsSpace);
      SpanIs(a + rest, IsSpace, n);
      assert (a + rest)[n..] == a[n..] + rest;
      assert a[n..][|a| - n - 1] == a[|a| - 1];
    } else {
      assert (a + rest)[1..] == a[1..] + rest;
    }
  }


  /** A whole whitespace run at the front becomes one space. */
  lemma CollapseRun(w: string, b: string)
    requires w != [] && AllSpace(w)
    requires b == [] || !IsSpace(b[0])
    ensures CollapseSpaces(w + b) == " " + CollapseSpaces(b)
  {
    SpanIs(w + b, IsSpace, |w|);
    assert (w + b)[|w|..] == b;
  }


  /** The substitution changes exactly the texts whose whitespace is not
      already single plain spaces. */
  lemma CollapseFixpoint(s: string)
    ensures CollapseSpaces(s) == s <==> SingleSpaced(s)
  {
    if SingleSpaced(s) {
      CollapseKeepsSingle(s);
    }
  }

  lemma {:induction false} CollapseKeepsSingle(s: string)
    requires SingleSpaced(s)
    ensures CollapseSpaces(s) == s
    decreases |s|
  {
    if s != [] {
      assert SingleSpaced(s[1..]);
      if IsSpace(s[0]) {
        SpanIs(s, IsSpace, 1);
      }
      CollapseKeepsSingle(s[1..]);
    }
  }

  /** re.sub(r'\s+', ' ', s).strip() */
  function Normalize(s: string): (r: string)
    ensures r == [] || (!IsSpace(r[0]) && !IsSpace(r[|r| - 1]))
    ensures SingleSpaced(r)
  {
    StripKeepsSpacing(CollapseSpaces(s));
    Strip(CollapseSpaces(s))
  }

  /** Stripping keeps the spacing facts that CollapseSpaces establishes. */
  lemma StripKeepsSpacing(c: string)
    requires SingleSpaced(c)
    ensures SingleSpaced(Strip(c))
  {
    var r := Strip(c);
    StripOccurs(c);
    var i :| OccursAt(c, r, i);
    assert forall j :: 0 <= j < |r| ==> r[j] == c[i + j];
  }

  /** Normalising whitespace keeps every other character, in order. */
  lemma NormalizeKeepsText(s: string)
    ensures Visible(Normalize(s)) == Visible(s)
  {
    StripKeepsText(CollapseSpaces(s));
    CollapseKeepsText(s);
  }

  /** Stripping removes whitespace only. */
  lemma StripKeepsText(c: string)
    ensures Visible(Strip(c)) == Visible(c)
  {
    TrimStartKeepsText(c);
    TrimEndKeepsText(TrimStart(c));
  }

  lemma TrimStartKeepsText(c: string)
    ensures Visible(TrimStart(c)) == Visible(c)
  {
    var k := |c| - |TrimStart(c)|;
    TrimStartSpaces(c);
    assert AllSpace(c[..k]);
    VisibleSkipsSpace(c, k);
  }

  lemma TrimEndKeepsText(t: string)
    ensures Visible(TrimEnd(t)) == Visible(t)
  {
    var r := TrimEnd(t);
    var tail := t[|r|..];
    TrimEndSpaces(t);
    assert Visible(tail) == [] by {
      assert AllSpace(tail[..|tail|]);
      VisibleSkipsSpace(tail, |tail|);
      assert tail[|tail|..] == [];
    }
    assert t == r + tail;
    VisibleConcat(r, tail);
  }

  lemma {:induction false} VisibleConcat(a: string, b: string)
    ensures Visible(a + b) == Visible(a) + Visible(b)
    decreases |a|
  {
    if a == [] {
      assert a + b == b;
    } else {
      VisibleConcat(a[1..], b);
      var ab := a + b;
      assert ab[0] == a[0];
      assert ab[1..] == a[1..] + b;
      if IsSpace(a[0]) {
        assert Visible(ab) == Visible(a[1..] + b);
      } else {
        assert Visible(ab) == [a[0]] + Visible(a[1..] + b);
      }
    }
  }

  // ------------------------------------------------------------- the whole

  /** The four redacting substitutions, in the order clean applies them. */
  function Redact(text: string): string {
    DeleteLocations(ReplaceNames(DeleteEmails(DeleteUrls(text, true)), false))
  }

  /** A text with nothing to redact passes the four substitutions
      unchanged: none of them touches text outside its matches. */
  lemma RedactKeepsPlain(text: string)
    requires UrlFree(text, true) && EmailFree(text)
    requires NameFree(text, false) && LocationFree(text)
    ensures Redact(text) == text
  {
    assert DeleteUrls(text, true) == text by {
      DeleteUrlsFixpoint(text, true);
    }
    assert DeleteEmails(text) == text by {
      DeleteEmailsFixpoint(text);
    }
    assert ReplaceNames(text, false) == text by {
      ReplaceNamesFixpoint(text, false);
    }
    assert DeleteLocations(text) == text by {
      DeleteLocationsFixpoint(text);
    }
  }

  /** DataSanitizer.clean on a string. The empty string is its only falsy
      string and yields "". Otherwise the result is the first MaxLength
      characters of the redacted, whitespace-normalised text: it does not
      start with whitespace, has no two whitespace characters in a row, and
      every whitespace character in it is a plain space. */
  function Clean(text: string): (r: string)
    ensures text == [] ==> r == []
    ensures |r| <= MaxLength
    ensures r == [] || !IsSpace(r[0])
    ensures SingleSpaced(r)
    ensures text != [] ==> r <= Normalize(Redact(text))
    ensures text != [] ==>
              |r| == if |Normalize(Redact(text))| < MaxLength then |Normalize(Redact(text))| else MaxLength
  {
    if text == [] then [] else Take(Normalize(Redact(text)), MaxLength)
  }
}
