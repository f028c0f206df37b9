/** SafetySystem: the crisis-keyword screen that runs before anything else
    in a turn. */
module Safety {
  import opened Builtins

  /** SafetySystem.crisis_keywords, in the order the system lists them. */
  const CrisisKeywords: seq<string> := [
    "suicide", "kill myself", "want to die", "end it all", "shoot myself",
    "self-harm", "cutting", "overdose", "hurt myself", "kill", "killing"
  ]

  /** The alert that replaces the whole turn; it points to the 988 line. */
  const Alert: string :=
    "\U{1F6A8} **CRITICAL ALERT:** Please contact emergency services (988) immediately."

  /** any(word in lowered for word in keywords) */
  predicate AnyIn(lowered: string, keywords: seq<string>)
    decreases |keywords|
  {
    keywords != [] && (Contains(lowered, keywords[0]) || AnyIn(lowered, keywords[1..]))
  }

  /** Some keyword of the list occurs in lowered. */
  ghost predicate SomeKeywordIn(lowered: string, keywords: seq<string>) {
    exists k :: 0 <= k < |keywords| && Contains(lowered, keywords[k])
  }

  lemma {:induction false} AnyInIff(lowered: string, keywords: seq<string>)
    ensures AnyIn(lowered, keywords) <==> SomeKeywordIn(lowered, keywords)
    decreases |keywords|
  {
    if keywords != [] {
      AnyInIff(lowered, keywords[1..]);
      if SomeKeywordIn(lowered, keywords) && !Contains(lowered, keywords[0]) {
        var k :| 0 <= k < |keywords| && Contains(lowered, keywords[k]);
        assert keywords[1..][k - 1] == keywords[k];
      }
      if SomeKeywordIn(lowered, keywords[1..]) {
        var k :| 0 <= k < |keywords[1..]| && Contains(lowered, keywords[1..][k]);
        assert keywords[k + 1] == keywords[1..][k];
      }
    }
  }

  /** SafetySystem.scan: the alert exactly when some crisis keyword occurs
      in the lower-cased text, and None otherwise. */
  function Scan(text: string): (r: Option<string>)
    ensures r == Some(Alert) <==> SomeKeywordIn(Lower(text), CrisisKeywords)
    ensures r == None <==> !SomeKeywordIn(Lower(text), CrisisKeywords)
  {
    AnyInIff(Lower(text), CrisisKeywords);
    if AnyIn(Lower(text), CrisisKeywords) then Some(Alert) else None
  }

  /** Surrounding an alerting text with more text never removes the alert. */
  lemma ScanWrapped(a: string, text: string, b: string)
    requires Scan(text).Some?
    ensures Scan(a + text + b) == Some(Alert)
  {
    var k :| 0 <= k < |CrisisKeywords| && Contains(Lower(text), CrisisKeywords[k]);
    LowerAppend(a + text, b);
    LowerAppend(a, text);
    ContainsWithin(Lower(a), Lower(text), Lower(b), CrisisKeywords[k]);
  }

  lemma LowerLower(s: string)
    ensures Lower(Lower(s)) == Lower(s)
  {
    assert forall i :: 0 <= i < |s| ==> Lower(Lower(s))[i] == Lower(s)[i];
  }

  /** The screen ignores case. */
  lemma ScanIgnoresCase(text: string)
    ensures Scan(Lower(text)) == Scan(text)
  {
    LowerLower(text);
  }

  /** The list without "kill myself" and "killing", both of which contain "kill". */
  const ReducedKeywords: seq<string> := [
    "suicide", "want to die", "end it all", "shoot myself",
    "self-harm", "cutting", "overdose", "hurt myself", "kill"
  ]

  /** "kill myself" and "killing" never change the verdict: any text holding
      either of them holds "kill". */
  lemma KillSubsumes(text: string)
    ensures Scan(text) == Some(Alert) <==> SomeKeywordIn(Lower(text), ReducedKeywords)
  {
    var l := Lower(text);
    if SomeKeywordIn(l, CrisisKeywords) {
      CrisisImpliesReduced(l);
    }
    if SomeKeywordIn(l, ReducedKeywords) {
      ReducedImpliesCrisis(l);
    }
  }

  lemma CrisisImpliesReduced(l: string)
    requires SomeKeywordIn(l, CrisisKeywords)
    ensures SomeKeywordIn(l, ReducedKeywords)
  {
    var k :| 0 <= k < |CrisisKeywords| && Contains(l, CrisisKeywords[k]);
    if CrisisKeywords[k] == "kill myself" || CrisisKeywords[k] == "killing" {
      assert Contains("kill myself", "kill") && Contains("killing", "kill");
      ContainsTransitive(l, CrisisKeywords[k], "kill");
      assert Contains(l, ReducedKeywords[8]);
    } else {
      assert CrisisKeywords[k] in ReducedKeywords;
      var j :| 0 <= j < |ReducedKeywords| && ReducedKeywords[j] == CrisisKeywords[k];
      assert Contains(l, ReducedKeywords[j]);
    }
  }

  lemma ReducedImpliesCrisis(l: string)
    requires SomeKeywordIn(l, ReducedKeywords)
    ensures SomeKeywordIn(l, CrisisKeywords)
  {
    var j :| 0 <= j < |ReducedKeywords| && Contains(l, ReducedKeywords[j]);
    assert ReducedKeywords[j] in CrisisKeywords;
    var k :| 0 <= k < |CrisisKeywords| && CrisisKeywords[k] == ReducedKeywords[j];
    assert Contains(l, CrisisKeywords[k]);
  }

  /** Substring matching has no word boundaries: "skill" alerts. */
  lemma SkillAlerts()
    ensures Scan("Skill") == Some(Alert)
  {
    assert Lower("Skill") == "skill";
    assert Contains("skill"[1..], "kill");
    assert Contains("skill", CrisisKeywords[9]);
  }
}
