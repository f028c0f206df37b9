/** train_brain: read the first CSV file of a downloaded dataset, pick its
    question and answer columns by name, keep the rows whose stripped texts
    are long enough, and append their records to the knowledge base. */
module TrainBrain {
  import opened Builtins
  import opened Records

  /** A CSV field as pandas reads it: text, or a missing value (NaN). */
  datatype CsvCell = Text(s: string) | Missing

  /** A CSV row, by column name. */
  type CsvRow = map<string, CsvCell>

  /** A CSV file as a DataFrame: its column names in file order and its rows. */
  datatype Table = Table(columns: seq<string>, rows: seq<CsvRow>)

  /** The tag every record of this script carries. */
  const KaggleTag := Source("kaggle_birdy654")

  /** The question column candidates, in the order the script lists them. */
  const QuestionColumns: seq<string> := ["Context", "Instruction", "User", "text", "prompt"]

  /** The answer column candidates. */
  const AnswerColumns: seq<string> := ["Response", "Output", "Assistant", "response", "completion"]

  /** row[col]: pandas fills a cell a short line leaves out with NaN. */
  function Field(row: CsvRow, col: string): CsvCell {
    if col in row then row[col] else Missing
  }

  /** str(x): a missing value prints as "nan". */
  function AsText(c: CsvCell): string {
    match c
    case Text(s) => s
    case Missing => "nan"
  }

  /** next((c for c in columns if c in candidates), None) */
  function FirstColumn(columns: seq<string>, candidates: seq<string>): (r: Option<string>)
    ensures r.Some? ==> r.value in columns && r.value in candidates
  {
    if columns == [] then None
    else if columns[0] in candidates then Some(columns[0])
    else FirstColumn(columns[1..], candidates)
  }

  /** The chosen column is the first one, in the file's column order, that
      is a candidate; there is none exactly when no column is a candidate. */
  lemma {:induction false} FirstColumnIsFirst(columns: seq<string>, candidates: seq<string>)
    ensures var r := FirstColumn(columns, candidates);
            (r.None? <==> forall i :: 0 <= i < |columns| ==> columns[i] !in candidates)
            && (r.Some? ==> exists i :: 0 <= i < |columns| && columns[i] == r.value
                                        && forall j :: 0 <= j < i ==> columns[j] !in candidates)
  {
    if columns != [] && columns[0] !in candidates {
      var t := columns[1..];
      FirstColumnIsFirst(t, candidates);
      var r := FirstColumn(t, candidates);
      if r.Some? {
        var i :| 0 <= i < |t| && t[i] == r.value && forall j :: 0 <= j < i ==> t[j] !in candidates;
        assert columns[i + 1] == r.value;
        forall j | 0 <= j < i + 1 ensures columns[j] !in candidates {
          if j > 0 {
            assert columns[j] == t[j - 1];
          }
        }
      } else {
        forall i | 0 <= i < |columns| ensures columns[i] !in candidates {
          if i > 0 {
            assert columns[i] == t[i - 1];
          }
        }
      }
    } else if columns != [] {
      assert columns[0] == FirstColumn(columns, candidates).value;
    }
  }

  /** The stripped question and answer of a row. */
  function Texts(row: CsvRow, qCol: string, aCol: string): (string, string) {
    (Strip(AsText(Field(row, qCol))), Strip(AsText(Field(row, aCol))))
  }

  /** The stripped texts of every row, in row order. */
  function TextsOf(rows: seq<CsvRow>, qCol: string, aCol: string): (p: seq<(string, string)>)
    ensures |p| == |rows|
  {
    seq(|rows|, k requires 0 <= k < |rows| => Texts(rows[k], qCol, aCol))
  }

  /** The records of the pairs whose question is longer than five characters
      and whose answer is longer than ten, in order; each holds the texts of
      one pair. */
  function Kept(pairs: seq<(string, string)>): (r: seq<Record>)
    ensures |r| <= |pairs|
    ensures forall k :: 0 <= k < |r| ==>
              |r[k].patterns| == 1 && |r[k].patterns[0]| > 5 && |r[k].response| > 10 && r[k].tag == KaggleTag
  {
    if pairs == [] then []
    else
      var init := Kept(pairs[..|pairs| - 1]);
      var (q, a) := pairs[|pairs| - 1];
      if |q| > 5 && |a| > 10 then init + [Record([q], a, KaggleTag)] else init
  }

  /** The records of the rows whose stripped question is longer than five
      characters and whose stripped answer is longer than ten, in row order. */
  function NewEntries(rows: seq<CsvRow>, qCol: string, aCol: string): seq<Record> {
    Kept(TextsOf(rows, qCol, aCol))
  }

  /** Each kept record holds the texts of one of the pairs. */
  lemma {:induction false} KeptFrom(pairs: seq<(string, string)>)
    ensures forall k :: 0 <= k < |Kept(pairs)| ==> (Kept(pairs)[k].patterns[0], Kept(pairs)[k].response) in pairs
  {
    if pairs != [] {
      var init := pairs[..|pairs| - 1];
      KeptFrom(init);
      var r := Kept(pairs);
      var r0 := Kept(init);
      forall k | 0 <= k < |r| ensures (r[k].patterns[0], r[k].response) in pairs {
        if k < |r0| {
          assert r[k] == r0[k];
          assert (r0[k].patterns[0], r0[k].response) in init;
        } else {
          assert (r[k].patterns[0], r[k].response) == pairs[|pairs| - 1];
        }
      }
    }
  }

  /** The loop over df.iterrows(). */
  method CollectRows(rows: seq<CsvRow>, qCol: string, aCol: string) returns (newEntries: seq<Record>)
    ensures newEntries == NewEntries(rows, qCol, aCol)
  {
    ghost var pairs := TextsOf(rows, qCol, aCol);
    newEntries := [];
    var i := 0;
    while i < |rows|
      invariant 0 <= i <= |rows|
      invariant newEntries == Kept(pairs[..i])
    {
      var (qText, aText) := Texts(rows[i], qCol, aCol);
      assert pairs[i] == (qText, aText);
      KeptSnoc(pairs, i);
      if |qText| > 5 && |aText| > 10 {
        newEntries := newEntries + [Record([qText], aText, KaggleTag)];
      }
      i := i + 1;
    }
    assert pairs[..i] == pairs;
  }

  lemma KeptSnoc(pairs: seq<(string, string)>, i: nat)
    requires i < |pairs|
    ensures Kept(pairs[..i + 1])
         == Kept(pairs[..i])
            + (if |pairs[i].0| > 5 && |pairs[i].1| > 10 then [Record([pairs[i].0], pairs[i].1, KaggleTag)] else [])
  {
    assert pairs[..i + 1][..i] == pairs[..i];
  }

  /** A record as this script writes it: one stripped pattern longer than
      five characters, a stripped response longer than ten, the tag. */
  predicate Shaped(e: Record) {
    |e.patterns| == 1 && |e.patterns[0]| > 5 && |e.response| > 10 && e.tag == KaggleTag
    && !IsSpace(e.patterns[0][0]) && !IsSpace(e.patterns[0][|e.patterns[0]| - 1])
    && !IsSpace(e.response[0]) && !IsSpace(e.response[|e.response| - 1])
  }

  /** Every new record has the script's shape; in particular both of its
      texts are stripped. */
  lemma NewEntriesShaped(rows: seq<CsvRow>, qCol: string, aCol: string)
    ensures forall k :: 0 <= k < |NewEntries(rows, qCol, aCol)| ==> Shaped(NewEntries(rows, qCol, aCol)[k])
  {
    var pairs := TextsOf(rows, qCol, aCol);
    var r := Kept(pairs);
    KeptFrom(pairs);
    forall k | 0 <= k < |r| ensures Shaped(r[k]) {
      ShapedAt(rows, qCol, aCol, pairs, r[k]);
    }
  }

  lemma ShapedAt(rows: seq<CsvRow>, qCol: string, aCol: string, pairs: seq<(string, string)>, e: Record)
    requires pairs == TextsOf(rows, qCol, aCol)
    requires |e.patterns| == 1 && |e.patterns[0]| > 5 && |e.response| > 10 && e.tag == KaggleTag
    requires (e.patterns[0], e.response) in pairs
    ensures Shaped(e)
  {
    var j :| 0 <= j < |pairs| && pairs[j] == (e.patterns[0], e.response);
    assert pairs[j] == Texts(rows[j], qCol, aCol);
    ShapedFromTexts(rows[j], qCol, aCol, e);
  }

  lemma ShapedFromTexts(row: CsvRow, qCol: string, aCol: string, e: Record)
    requires |e.patterns| == 1 && |e.patterns[0]| > 5 && |e.response| > 10 && e.tag == KaggleTag
    requires (e.patterns[0], e.response) == Texts(row, qCol, aCol)
    ensures Shaped(e)
  {
    TextStripped(Field(row, qCol));
    TextStripped(Field(row, aCol));
  }

  lemma TextStripped(c: CsvCell)
    ensures Stripped(Strip(AsText(c)))
  {
  }

  predicate Stripped(s: string) {
    s == [] || (!IsSpace(s[0]) && !IsSpace(s[|s| - 1]))
  }

  lemma {:induction false} KeptAppend(a: seq<(string, string)>, b: seq<(string, string)>)
    ensures Kept(a + b) == Kept(a) + Kept(b)
    decreases |b|
  {
    if b == [] {
      assert a + b == a;
    } else {
      var b' := b[..|b| - 1];
      KeptAppend(a, b');
      assert (a + b)[..|a + b| - 1] == a + b';
      assert (a + b)[|a + b| - 1] == b[|b| - 1];
    }
  }

  /** The conversion works row by row and keeps the order of the rows. */
  lemma NewEntriesAppend(a: seq<CsvRow>, b: seq<CsvRow>, qCol: string, aCol: string)
    ensures NewEntries(a + b, qCol, aCol) == NewEntries(a, qCol, aCol) + NewEntries(b, qCol, aCol)
  {
    TextsOfAppend(a, b, qCol, aCol);
    KeptAppend(TextsOf(a, qCol, aCol), TextsOf(b, qCol, aCol));
  }

  lemma TextsOfAppend(a: seq<CsvRow>, b: seq<CsvRow>, qCol: string, aCol: string)
    ensures TextsOf(a + b, qCol, aCol) == TextsOf(a, qCol, aCol) + TextsOf(b, qCol, aCol)
  {
    var l := TextsOf(a + b, qCol, aCol);
    var r := TextsOf(a, qCol, aCol) + TextsOf(b, qCol, aCol);
    forall k | 0 <= k < |l| ensures l[k] == r[k] {
      if k < |a| {
        assert (a + b)[k] == a[k];
      } else {
        assert (a + b)[k] == b[k - |a|];
      }
    }
  }

  /** A row gives a record exactly when both of its stripped texts are long
      enough, and the record holds those texts. */
  lemma NewEntriesOne(row: CsvRow, qCol: string, aCol: string)
    ensures var q := Strip(AsText(Field(row, qCol)));
            var a := Strip(AsText(Field(row, aCol)));
            NewEntries([row], qCol, aCol)
              == (if |q| > 5 && |a| > 10 then [Record([q], a, KaggleTag)] else [])
  {
    var p := TextsOf([row], qCol, aCol);
    assert p[..0] == [] && p[0] == Texts(row, qCol, aCol);
  }

  /** A row whose question or answer cell is missing reads as "nan", which
      is too short: the row is dropped. */
  lemma MissingDropped(row: CsvRow, qCol: string, aCol: string)
    requires Field(row, qCol) == Missing || Field(row, aCol) == Missing
    ensures NewEntries([row], qCol, aCol) == []
  {
    NewEntriesOne(row, qCol, aCol);
    if Field(row, qCol) == Missing {
      NanStrips(AsText(Field(row, qCol)));
    } else {
      NanStrips(AsText(Field(row, aCol)));
    }
  }

  lemma NanStrips(s: string)
    requires s == "nan"
    ensures |Strip(s)| == 3
  {
    assert TrimStart(s) == s by { assert !IsSpace(s[0]); }
    assert TrimEnd(s) == s by { assert !IsSpace(s[2]); }
  }

  /** json.dump(existing + new_entries) when the file exists, else new_entries. */
  function Combined(existing: Option<seq<Record>>, newEntries: seq<Record>): (r: seq<Record>)
  {
    match existing
    case None => newEntries
    case Some(e) => e + newEntries
  }

  /** The existing entries stay first and unchanged, the new ones follow in
      order, and nothing else is added. */
  lemma CombinedKeepsBoth(existing: Option<seq<Record>>, newEntries: seq<Record>)
    ensures var r := Combined(existing, newEntries);
            var prior := if existing.Some? then existing.value else [];
            |r| == |prior| + |newEntries|
            && r[..|prior|] == prior && r[|prior|..] == newEntries
  {
  }

  /** What the script saves: None when the download fails, no CSV file is
      found, or the first CSV file lacks a question or an answer column. */
  function Trained(download: Option<seq<Table>>, existing: Option<seq<Record>>): Option<seq<Record>> {
    if download.None? || download.value == [] then None
    else
      var t := download.value[0];
      var q := FirstColumn(t.columns, QuestionColumns);
      var a := FirstColumn(t.columns, AnswerColumns);
      if q.None? || a.None? then None
      else Some(Combined(existing, NewEntries(t.rows, q.value, a.value)))
  }

  /** The script. `download` is the list of CSV files kagglehub left in its
      folder (None when the download raised), `existing` the knowledge
      base when the file exists. The result is what is written, or None
      when the script returns without writing. */
  method TrainBrainScript(download: Option<seq<Table>>, existing: Option<seq<Record>>)
    returns (saved: Option<seq<Record>>)
    ensures saved == Trained(download, existing)
  {
    if download.None? {
      return None;
    }
    var csvFiles := download.value;
    if csvFiles == [] {
      return None;
    }
    var df := csvFiles[0];
    var qCol := FirstColumn(df.columns, QuestionColumns);
    var aCol := FirstColumn(df.columns, AnswerColumns);
    if qCol.None? || aCol.None? {
      return None;
    }
    var newEntries := CollectRows(df.rows, qCol.value, aCol.value);
    var combined: seq<Record>;
    if existing.Some? {
      combined := existing.value + newEntries;
    } else {
      combined := newEntries;
    }
    saved := Some(combined);
  }

  /** The script writes exactly when a CSV file came down and its columns
      include a question candidate and an answer candidate. */
  lemma TrainedWhen(download: Option<seq<Table>>, existing: Option<seq<Record>>)
    ensures Trained(download, existing).Some?
        <==> download.Some? && download.value != []
             && (exists i :: 0 <= i < |download.value[0].columns| && download.value[0].columns[i] in QuestionColumns)
             && (exists i :: 0 <= i < |download.value[0].columns| && download.value[0].columns[i] in AnswerColumns)
  {
    if download.Some? && download.value != [] {
      var cols := download.value[0].columns;
      FirstColumnIsFirst(cols, QuestionColumns);
      FirstColumnIsFirst(cols, AnswerColumns);
    }
  }

  /** What is written starts with the existing entries, unchanged, and goes
      on with records that each have the script's shape. */
  lemma TrainedExtends(download: Option<seq<Table>>, existing: Option<seq<Record>>)
    requires Trained(download, existing).Some?
    ensures var out := Trained(download, existing).value;
            var prior := if existing.Some? then existing.value else [];
            |prior| <= |out| && out[..|prior|] == prior
            && forall k :: |prior| <= k < |out| ==> Shaped(out[k])
  {
    var t := download.value[0];
    var q := FirstColumn(t.columns, QuestionColumns).value;
    var a := FirstColumn(t.columns, AnswerColumns).value;
    var n := NewEntries(t.rows, q, a);
    NewEntriesShaped(t.rows, q, a);
    CombinedKeepsBoth(existing, n);
    var out := Combined(existing, n);
    var prior := if existing.Some? then existing.value else [];
    forall k | |prior| <= k < |out| ensures Shaped(out[k]) {
      assert out[k] == n[k - |prior|];
    }
  }
}
