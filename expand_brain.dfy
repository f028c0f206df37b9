/** The knowledge-base expansion script: two datasets are cleaned,
    filtered and capped, and two hand-written entries are added last. */
module ExpandBrain {
  import opened Builtins
  import opened Patterns
  import opened Records

  /** MAX_SAMPLES_PER_SOURCE */
  const MaxSamplesPerSource: nat := 1000

  // ----------------------------------------------------------- `<[^>]+>`

  predicate NotGt(c: char) {
    c != '>'
  }

  /** The length of a `<[^>]+>` match at the start of s, or 0: a '<', one or
      more characters other than '>', taken greedily, then a '>'. */
  function TagLen(s: string): (n: nat)
    ensures n <= |s|
    ensures n > 0 ==> n >= 3 && s[0] == '<' && s[n - 1] == '>'
  {
    if s == [] || s[0] != '<' then 0
    else
      var k := Span(s[1..], NotGt);
      if k >= 1 && 1 + k < |s| then k + 2 else 0
  }

  /** re.sub(r'<[^>]+>', '', s) */
  function RemoveTags(s: string): (r: string)
    ensures |r| <= |s|
    decreases |s|
  {
    if s == [] then []
    else if TagLen(s) > 0 then RemoveTags(s[TagLen(s)..])
    else [s[0]] + RemoveTags(s[1..])
  }

  predicate TagFree(s: string) {
    forall k :: 0 <= k < |s| ==> TagLen(s[k..]) == 0
  }

  /** Removing tags never brings in a '>'. */
  lemma {:induction false} RemoveTagsKeepsNoGt(s: string)
    requires '>' !in s
    ensures '>' !in RemoveTags(s)
    decreases |s|
  {
    if s != [] {
      assert TagLen(s) == 0 by {
        if s[0] == '<' {
          SpanIs(s[1..], NotGt, |s| - 1);
        }
      }
      RemoveTagsKeepsNoGt(s[1..]);
    }
  }

  /** A '<' the scan keeps cannot start a match in the result either: it
      was kept because a '>' follows it at once, or because no '>' follows it. */
  lemma LeadingTagKept(s: string)
    requires s != [] && TagLen(s) == 0
    ensures TagLen([s[0]] + RemoveTags(s[1..])) == 0
  {
    var t := s[1..];
    var r := [s[0]] + RemoveTags(t);
    if s[0] == '<' && |s| > 1 {
      var k := Span(t, NotGt);
      if k == 0 {
        assert RemoveTags(t) == [t[0]] + RemoveTags(t[1..]);
        assert r[1] == '>';
        assert r[1..][0] == '>';
      } else {
        assert 1 + k == |s|;
        assert '>' !in t;
        RemoveTagsKeepsNoGt(t);
        assert r[1..] == RemoveTags(t);
        SpanIs(r[1..], NotGt, |r| - 1);
      }
    }
  }

  /** After the substitution no tag is left. */
  lemma {:induction false} RemoveTagsLeavesNone(s: string)
    ensures TagFree(RemoveTags(s))
    decreases |s|
  {
    var r := RemoveTags(s);
    if s == [] {
    } else if TagLen(s) > 0 {
      RemoveTagsLeavesNone(s[TagLen(s)..]);
    } else {
      var rest := RemoveTags(s[1..]);
      RemoveTagsLeavesNone(s[1..]);
      assert r == [s[0]] + rest;
      forall k | 0 <= k < |r| ensures TagLen(r[k..]) == 0 {
        if k == 0 {
          LeadingTagKept(s);
        } else {
          assert r[k..] == rest[k - 1..];
        }
      }
    }
  }

  /** Text without '<' has no tag to remove. */
  lemma {:induction false} RemoveTagsNoLt(s: string)
    requires '<' !in s
    ensures RemoveTags(s) == s
    decreases |s|
  {
    if s != [] {
      RemoveTagsNoLt(s[1..]);
    }
  }

  /** A '<', one or more characters other than '>', and a '>' are removed
      whole, and the scan goes on after the '>'. */
  lemma RemovesTag(x: string, rest: string)
    requires x != [] && '>' !in x
    ensures RemoveTags(['<'] + x + ['>'] + rest) == RemoveTags(rest)
  {
    var s := ['<'] + x + ['>'] + rest;
    assert s[1..] == x + ['>'] + rest;
    SpanIs(s[1..], NotGt, |x|);
    assert s[|x| + 2..] == rest;
  }

  /** Text in which no tag starts, here s[..m], is copied as it is, and the
      scan then goes on with what follows it. */
  lemma RemoveTagsKeeps(s: string, m: nat)
    requires m <= |s|
    requires forall k :: 0 <= k < m ==> TagLen(s[k..]) == 0
    ensures RemoveTags(s) == s[..m] + RemoveTags(s[m..])
  {
    forall k | 0 <= k < m
      ensures RemoveTags(s[k..]) == [s[k]] + RemoveTags(s[k + 1..])
    {
      assert s[k..][1..] == s[k + 1..];
    }
    CopiesPrefix(RemoveTags, s, m);
  }

  /** A tag anywhere makes the text shorter. */
  lemma {:induction false} TagShortens(s: string, k: nat)
    requires k < |s| && TagLen(s[k..]) > 0
    ensures |RemoveTags(s)| < |s|
    decreases k
  {
    if TagLen(s) == 0 {
      assert k > 0 by { assert s[0..] == s; }
      assert s[1..][k - 1..] == s[k..];
      TagShortens(s[1..], k - 1);
    }
  }

  /** The substitution changes exactly the texts that hold a tag. */
  lemma RemoveTagsFixpoint(s: string)
    ensures RemoveTags(s) == s <==> TagFree(s)
  {
    if TagFree(s) {
      RemoveTagsKeeps(s, |s|);
      assert s[..|s|] == s;
    } else {
      var k :| 0 <= k < |s| && TagLen(s[k..]) != 0;
      TagShortens(s, k);
    }
  }

  // ---------------------------------------------------------- clean_text

  /** clean_text: "" for anything but a string; otherwise tags, then URLs
      starting with "http", are deleted, line feeds become spaces, carriage
      returns are dropped, and the ends are stripped. */
  function CleanText(c: Cell): (r: string)
    ensures c.Null? ==> r == []
    ensures '\n' !in r && '\r' !in r
    ensures r == [] || (!IsSpace(r[0]) && !IsSpace(r[|r| - 1]))
  {
    match c
    case Null => []
    case Str(s) =>
      var noUrls := DeleteUrls(RemoveTags(s), false);
      var oneLine := Replace(Replace(noUrls, "\n", " "), "\r", "");
      LineBreaksGone(noUrls);
      StripKeepsAbsent(oneLine, '\n');
      StripKeepsAbsent(oneLine, '\r');
      Strip(oneLine)
  }

  lemma LineBreaksGone(s: string)
    ensures '\n' !in Replace(Replace(s, "\n", " "), "\r", "")
    ensures '\r' !in Replace(Replace(s, "\n", " "), "\r", "")
  {
    ReplaceRemovesChar(s, '\n', " ");
    ReplaceChars(Replace(s, "\n", " "), "\r", "", '\n');
    ReplaceRemovesChar(Replace(s, "\n", " "), '\r', "");
  }

  /** Stripping only removes characters. */
  lemma StripKeepsAbsent(s: string, c: char)
    requires c !in s
    ensures c !in Strip(s)
  {
    var r := Strip(s);
    StripOccurs(s);
    var i :| OccursAt(s, r, i);
    forall j | 0 <= j < |r| ensures r[j] != c {
      assert r[j] == s[i + j];
    }
  }

  /** Both deletions run before the line handling: a carriage return ends
      the URL's `\S+` run, so "http\rx" keeps its "http" and becomes "httpx". */
  lemma CarriageReturnSplitsUrl(s: string)
    requires s == "http\rx"
    ensures CleanText(Str(s)) == "httpx"
  {
    KeepsTagsAndUrls(s);
    DropsCarriageReturn(s);
    StripUnspaced("httpx");
    CleanTextWhen(s, "httpx");
  }

  /** clean_text's result, given what each of its steps does to s. */
  lemma CleanTextWhen(s: string, r: string)
    requires RemoveTags(s) == s && DeleteUrls(s, false) == s
    requires Replace(Replace(s, "\n", " "), "\r", "") == r && Strip(r) == r
    ensures CleanText(Str(s)) == r
  {
  }

  /** "http\rx" holds neither a tag nor a URL. */
  lemma KeepsTagsAndUrls(s: string)
    requires s == "http\rx"
    ensures RemoveTags(s) == s && DeleteUrls(s, false) == s
  {
    RemoveTagsNoLt(s);
    CarriageReturnEndsUrl(s);
  }

  /** The line handling of "http\rx" drops the carriage return. */
  lemma DropsCarriageReturn(s: string)
    requires s == "http\rx"
    ensures Replace(Replace(s, "\n", " "), "\r", "") == "httpx"
  {
    ReplaceAbsent(s, "\n", " ");
    assert s == "http" + ['\r'] + "x";
    ReplaceDropsChar("http", '\r', "x");
  }

  /** No position of "http\rx" starts a URL: every non-space run from a
      position stops at the carriage return or at the end, short of five. */
  lemma CarriageReturnEndsUrl(s: string)
    requires s == "http\rx"
    ensures DeleteUrls(s, false) == s
  {
    forall k | 0 <= k < |s| ensures !UrlAt(s[k..], false) {
      var t := s[k..];
      if k <= 4 {
        assert t[4 - k] == '\r';
        assert Span(t, IsNonSpace) <= 4 - k;
      }
    }
    assert UrlFree(s, false);
    DeleteUrlsFixpoint(s, false);
  }

  /** Removing the only occurrences of a character drops exactly that one. */
  lemma {:induction false} ReplaceDropsChar(a: string, c: char, b: string)
    requires c !in a && c !in b
    ensures Replace(a + [c] + b, [c], "") == a + b
    decreases |a|
  {
    var s := a + [c] + b;
    if a == [] {
      assert s[..1] == [c] && s[1..] == b;
      ReplaceAbsent(b, [c], "");
    } else {
      ReplaceDropsChar(a[1..], c, b);
      assert s[..1] != [c] by { assert s[..1][0] == a[0]; }
      assert s[1..] == a[1..] + [c] + b;
      assert a + b == [a[0]] + (a[1..] + b);
    }
  }

  /** Text with non-space ends is its own strip. */
  lemma StripUnspaced(s: string)
    requires s != [] && !IsSpace(s[0]) && !IsSpace(s[|s| - 1])
    ensures Strip(s) == s
  {
  }

  /** Replace leaves text without the pattern's first character alone. */
  lemma {:induction false} ReplaceAbsent(s: string, pat: string, repl: string)
    requires pat != [] && pat[0] !in s
    ensures Replace(s, pat, repl) == s
    decreases |s|
  {
    if |s| >= |pat| {
      assert s[..|pat|][0] == s[0];
      ReplaceAbsent(s[1..], pat, repl);
    }
  }

  // ----------------------------------------------------- the source loops

  /** The record a kept row becomes. */
  function ToRecord(row: Row, qKey: string, aKey: string, source: string): Record {
    Record([CleanText(Get(row, qKey))], CleanText(Get(row, aKey)), Source(source))
  }

  /** A row is kept when both cleaned texts are longer than minLen. */
  predicate Keeps(row: Row, qKey: string, aKey: string, minLen: nat) {
    |CleanText(Get(row, qKey))| > minLen && |CleanText(Get(row, aKey))| > minLen
  }

  /** A record as a source loop writes it: one pattern, both texts longer
      than minLen, the source's tag. */
  predicate Shaped(e: Record, minLen: nat, source: string) {
    |e.patterns| == 1 && |e.patterns[0]| > minLen && |e.response| > minLen && e.tag == Source(source)
  }

  /** Both texts of every row, in row order, as `clean` leaves them. */
  function Cleaned(rows: seq<Row>, qKey: string, aKey: string, clean: Cell -> string): (p: seq<(string, string)>)
    ensures |p| == |rows|
  {
    seq(|rows|, k requires 0 <= k < |rows| => (clean(Get(rows[k], qKey)), clean(Get(rows[k], aKey))))
  }

  /** The records of the cleaned pairs whose texts are both longer than
      minLen, in order. */
  function Kept(pairs: seq<(string, string)>, minLen: nat, source: string): (r: seq<Record>)
    ensures |r| <= |pairs|
    ensures forall k :: 0 <= k < |r| ==> Shaped(r[k], minLen, source)
  {
    if pairs == [] then []
    else
      var init := Kept(pairs[..|pairs| - 1], minLen, source);
      var (q, a) := pairs[|pairs| - 1];
      if |q| > minLen && |a| > minLen then init + [Record([q], a, Source(source))] else init
  }

  /** The records of every kept row, in row order, before the cap. */
  function Converted(rows: seq<Row>, qKey: string, aKey: string, minLen: nat, source: string): (r: seq<Record>)
    ensures |r| <= |rows|
    ensures forall k :: 0 <= k < |r| ==> Shaped(r[k], minLen, source)
  {
    Kept(Cleaned(rows, qKey, aKey, CleanText), minLen, source)
  }

  lemma {:induction false} KeptAppend(a: seq<(string, string)>, b: seq<(string, string)>, minLen: nat, source: string)
    ensures Kept(a + b, minLen, source) == Kept(a, minLen, source) + Kept(b, minLen, source)
    decreases |b|
  {
    if b == [] {
      assert a + b == a;
    } else {
      var b' := b[..|b| - 1];
      KeptAppend(a, b', minLen, source);
      assert (a + b)[..|a + b| - 1] == a + b';
      assert (a + b)[|a + b| - 1] == b[|b| - 1];
    }
  }

  /** The conversion works row by row: it keeps the order of the rows. */
  lemma ConvertedAppend(a: seq<Row>, b: seq<Row>, qKey: string, aKey: string, minLen: nat, source: string)
    ensures Converted(a + b, qKey, aKey, minLen, source)
         == Converted(a, qKey, aKey, minLen, source) + Converted(b, qKey, aKey, minLen, source)
  {
    CleanedAppend(a, b, qKey, aKey, CleanText);
    KeptAppend(Cleaned(a, qKey, aKey, CleanText), Cleaned(b, qKey, aKey, CleanText), minLen, source);
  }

  lemma CleanedAppend(a: seq<Row>, b: seq<Row>, qKey: string, aKey: string, clean: Cell -> string)
    ensures Cleaned(a + b, qKey, aKey, clean) == Cleaned(a, qKey, aKey, clean) + Cleaned(b, qKey, aKey, clean)
  {
    var l, r := Cleaned(a, qKey, aKey, clean), Cleaned(b, qKey, aKey, clean);
    forall k | 0 <= k < |a + b| ensures Cleaned(a + b, qKey, aKey, clean)[k] == (l + r)[k] {
      if k < |a| {
        assert (a + b)[k] == a[k];
      } else {
        assert (a + b)[k] == b[k - |a|];
      }
    }
  }

  /** A row's record appears exactly when the row is kept. */
  lemma ConvertedOne(row: Row, qKey: string, aKey: string, minLen: nat, source: string)
    ensures Converted([row], qKey, aKey, minLen, source)
         == (if Keeps(row, qKey, aKey, minLen) then [ToRecord(row, qKey, aKey, source)] else [])
  {
    CleanedOne(row, qKey, aKey, CleanText);
    var p := Cleaned([row], qKey, aKey, CleanText);
    assert p[..0] == [];
  }

  lemma CleanedOne(row: Row, qKey: string, aKey: string, clean: Cell -> string)
    ensures Cleaned([row], qKey, aKey, clean) == [(clean(Get(row, qKey)), clean(Get(row, aKey)))]
  {
  }

  /** Extending the pairs by one extends the records by that pair's record,
      when both texts clear minLen. */
  lemma KeptSnoc(pairs: seq<(string, string)>, i: nat, minLen: nat, source: string)
    requires i < |pairs|
    ensures Kept(pairs[..i + 1], minLen, source)
         == Kept(pairs[..i], minLen, source)
            + (if |pairs[i].0| > minLen && |pairs[i].1| > minLen
               then [Record([pairs[i].0], pairs[i].1, Source(source))] else [])
  {
    assert pairs[..i + 1][..i] == pairs[..i];
  }

  /** Once the records of a prefix of the pairs fill the cap, they are all
      the capped list holds. */
  lemma CapReached(pairs: seq<(string, string)>, i: nat, entries: seq<Record>, minLen: nat, source: string)
    requires i <= |pairs|
    requires entries == Kept(pairs[..i], minLen, source)
    requires |entries| == MaxSamplesPerSource
    ensures entries == Take(Kept(pairs, minLen, source), MaxSamplesPerSource)
  {
    KeptAppend(pairs[..i], pairs[i..], minLen, source);
    assert pairs[..i] + pairs[i..] == pairs;
    TakePrefix(entries, Kept(pairs, minLen, source), MaxSamplesPerSource);
  }

  /** One source loop: clean both fields of each row, append the kept rows'
      records, and stop once MaxSamplesPerSource records were appended. The
      script passes CleanText as `clean`; the loop's proof needs nothing of it. */
  method CollectSource(rows: seq<Row>, qKey: string, aKey: string, minLen: nat, source: string, clean: Cell -> string)
    returns (entries: seq<Record>)
    ensures entries == Take(Kept(Cleaned(rows, qKey, aKey, clean), minLen, source), MaxSamplesPerSource)
  {
    ghost var pairs := Cleaned(rows, qKey, aKey, clean);
    entries := [];
    var count := 0;
    var i := 0;
    while i < |rows|
      invariant 0 <= i <= |rows|
      invariant entries == Kept(pairs[..i], minLen, source)
      invariant count == |entries| < MaxSamplesPerSource
    {
      var row := rows[i];
      var q := clean(Get(row, qKey));
      var a := clean(Get(row, aKey));
      assert pairs[i] == (q, a);
      KeptSnoc(pairs, i, minLen, source);
      if |q| > minLen && |a| > minLen {
        entries := entries + [Record([q], a, Source(source))];
        count := count + 1;
        if count >= MaxSamplesPerSource {
          CapReached(pairs, i + 1, entries, minLen, source);
          return;
        }
      }
      i := i + 1;
    }
    assert pairs[..i] == pairs;
  }

  // ------------------------------------------------------- the whole list

  /** The two hand-written entries, always added last. */
  const Hardcoded: seq<Record> := [
    Record(["hi", "hello", "hey", "start"],
           "Hello. I am here to listen and support you. How are you feeling today?",
           Source("Hardcoded")),
    Record(["help", "i need help"],
           "I am here. If you are in crisis, please call 988. If you just need to talk, I am listening. What is on your mind?",
           Source("Hardcoded"))
  ]

  /** The records one source contributes; a source whose download failed
      (None) contributes none. */
  function SourcePart(ds: Option<seq<Row>>, qKey: string, aKey: string, minLen: nat, source: string): seq<Record> {
    match ds
    case None => []
    case Some(rows) => Take(Converted(rows, qKey, aKey, minLen, source), MaxSamplesPerSource)
  }

  /** combined_data as the script saves it. */
  function Expanded(counselChat: Option<seq<Row>>, amod: Option<seq<Row>>): seq<Record> {
    SourcePart(counselChat, "questionText", "answerText", 10, "CounselChat")
    + SourcePart(amod, "Context", "Response", 5, "AmodDataset")
    + Hardcoded
  }

  /** The script: the Counsel Chat loop, the Amod loop with its own counter,
      then the hand-written entries. */
  method ExpandBrainScript(counselChat: Option<seq<Row>>, amod: Option<seq<Row>>)
    returns (combinedData: seq<Record>)
    ensures combinedData == Expanded(counselChat, amod)
  {
    var counsel: seq<Record> := [];
    if counselChat.Some? {
      counsel := CollectSource(counselChat.value, "questionText", "answerText", 10, "CounselChat", CleanText);
    }
    assert counsel == SourcePart(counselChat, "questionText", "answerText", 10, "CounselChat");
    var amodPart: seq<Record> := [];
    if amod.Some? {
      amodPart := CollectSource(amod.value, "Context", "Response", 5, "AmodDataset", CleanText);
    }
    assert amodPart == SourcePart(amod, "Context", "Response", 5, "AmodDataset");
    combinedData := counsel + amodPart + Hardcoded;
  }

  /** The rank of a source in the saved list. */
  function Rank(t: Tag): nat {
    if t == Source("CounselChat") then 0
    else if t == Source("AmodDataset") then 1
    else 2
  }

  /** Each source's part is capped and holds only records shaped for it. */
  lemma SourcePartShaped(ds: Option<seq<Row>>, qKey: string, aKey: string, minLen: nat, source: string)
    ensures var part := SourcePart(ds, qKey, aKey, minLen, source);
            |part| <= MaxSamplesPerSource
            && forall k :: 0 <= k < |part| ==> Shaped(part[k], minLen, source)
  {
    if ds.Some? {
      var all := Converted(ds.value, qKey, aKey, minLen, source);
      var part := Take(all, MaxSamplesPerSource);
      forall k | 0 <= k < |part| ensures Shaped(part[k], minLen, source) {
        assert part[k] == all[k];
      }
    }
  }

  /** The hand-written records: two of them, both tagged "Hardcoded". */
  lemma HardcodedTagged()
    ensures |Hardcoded| == 2
    ensures forall k :: 0 <= k < |Hardcoded| ==> Hardcoded[k].tag == Source("Hardcoded")
  {
  }

  /** The source tags never go back: Counsel Chat, then Amod, then the
      hand-written records h. */
  lemma LayersOrdered(c: seq<Record>, m: seq<Record>, h: seq<Record>)
    requires forall k :: 0 <= k < |c| ==> Shaped(c[k], 10, "CounselChat")
    requires forall k :: 0 <= k < |m| ==> Shaped(m[k], 5, "AmodDataset")
    requires forall k :: 0 <= k < |h| ==> h[k].tag == Source("Hardcoded")
    ensures var out := c + m + h;
            (forall i, j :: 0 <= i < j < |out| ==> Rank(out[i].tag) <= Rank(out[j].tag))
            && (forall k :: 0 <= k < |out| - |h| ==>
                  Shaped(out[k], 10, "CounselChat") || Shaped(out[k], 5, "AmodDataset"))
  {
    var out := c + m + h;
    forall i | 0 <= i < |out|
      ensures Rank(out[i].tag) == (if i < |c| then 0 else if i < |c| + |m| then 1 else 2)
      ensures i < |c| ==> Shaped(out[i], 10, "CounselChat")
      ensures |c| <= i < |c| + |m| ==> Shaped(out[i], 5, "AmodDataset")
    {
      if i < |c| {
        assert out[i] == c[i];
      } else if i < |c| + |m| {
        assert out[i] == m[i - |c|];
      } else {
        assert out[i] == h[i - |c| - |m|];
      }
    }
  }

  /** The saved list: at most 1000 records from each source, Counsel Chat
      before Amod before the hand-written ones, which come last; every
      dataset record has one pattern and clears its source's length bar. */
  lemma ExpandedShape(counselChat: Option<seq<Row>>, amod: Option<seq<Row>>)
    ensures var out := Expanded(counselChat, amod);
            |out| <= 2 * MaxSamplesPerSource + |Hardcoded|
            && out[|out| - 2..] == Hardcoded
            && (forall i, j :: 0 <= i < j < |out| ==> Rank(out[i].tag) <= Rank(out[j].tag))
            && (forall k :: 0 <= k < |out| - 2 ==>
                  Shaped(out[k], 10, "CounselChat") || Shaped(out[k], 5, "AmodDataset"))
  {
    var c, m := ExpandedParts(counselChat, amod);
    HardcodedTagged();
    Assembled(c, m, Hardcoded, Expanded(counselChat, amod));
  }

  /** The two dataset parts of the saved list, with what SourcePartShaped
      says about each. */
  lemma ExpandedParts(counselChat: Option<seq<Row>>, amod: Option<seq<Row>>) returns (c: seq<Record>, m: seq<Record>)
    ensures Expanded(counselChat, amod) == c + m + Hardcoded
    ensures |c| <= MaxSamplesPerSource && |m| <= MaxSamplesPerSource
    ensures forall k :: 0 <= k < |c| ==> Shaped(c[k], 10, "CounselChat")
    ensures forall k :: 0 <= k < |m| ==> Shaped(m[k], 5, "AmodDataset")
  {
    c := SourcePart(counselChat, "questionText", "answerText", 10, "CounselChat");
    m := SourcePart(amod, "Context", "Response", 5, "AmodDataset");
    SourcePartShaped(counselChat, "questionText", "answerText", 10, "CounselChat");
    SourcePartShaped(amod, "Context", "Response", 5, "AmodDataset");
  }

  /** Two capped parts followed by the hand-written records h. */
  lemma Assembled(c: seq<Record>, m: seq<Record>, h: seq<Record>, out: seq<Record>)
    requires out == c + m + h
    requires |c| <= MaxSamplesPerSource && |m| <= MaxSamplesPerSource
    requires forall k :: 0 <= k < |c| ==> Shaped(c[k], 10, "CounselChat")
    requires forall k :: 0 <= k < |m| ==> Shaped(m[k], 5, "AmodDataset")
    requires forall k :: 0 <= k < |h| ==> h[k].tag == Source("Hardcoded")
    ensures |out| <= 2 * MaxSamplesPerSource + |h|
    ensures out[|out| - |h|..] == h
    ensures forall i, j :: 0 <= i < j < |out| ==> Rank(out[i].tag) <= Rank(out[j].tag)
    ensures forall k :: 0 <= k < |out| - |h| ==>
              Shaped(out[k], 10, "CounselChat") || Shaped(out[k], 5, "AmodDataset")
  {
    LayersOrdered(c, m, h);
    assert out[|out| - |h|..] == h;
  }
}
