/** import_data: turn the first rows of the Amod counselling dataset that
    have both a context and a response into knowledge-base records, copying
    the texts unmodified, and stop at Limit records. */
module ImportData {
  import opened Builtins
  import opened Records

  /** LIMIT: how many records the script writes at most. */
  const Limit: nat := 500

  /** The tag every record of this script carries. */
  const General := Category("General Counseling")

  /** Python truthiness of a field: None and "" are false. */
  predicate Truthy(c: Cell) {
    c.Str? && c.s != []
  }

  /** The record of a row, when the row is not skipped. */
  function Format(row: Row): Option<Record> {
    var user := Get(row, "Context");
    var bot := Get(row, "Response");
    if !Truthy(user) || !Truthy(bot) then None
    else Some(Record([user.s], bot.s, General))
  }

  /** The records of every row that is not skipped, in row order, before
      the limit. */
  function Formatted(rows: seq<Row>): (r: seq<Record>)
    ensures |r| <= |rows|
  {
    if rows == [] then []
    else
      var init := Formatted(rows[..|rows| - 1]);
      match Format(rows[|rows| - 1])
      case None => init
      case Some(e) => init + [e]
  }

  /** What the script saves: nothing when the download fails, else the first
      Limit records. */
  function Imported(ds: Option<seq<Row>>): Option<seq<Record>> {
    match ds
    case None => None
    case Some(rows) => Some(Take(Formatted(rows), Limit))
  }

  lemma FormattedSnoc(rows: seq<Row>, i: nat)
    requires i < |rows|
    ensures Formatted(rows[..i + 1])
         == Formatted(rows[..i]) + (match Format(rows[i]) case None => [] case Some(e) => [e])
  {
    assert rows[..i + 1][..i] == rows[..i];
  }

  /** The conversion works row by row and keeps the order of the rows. */
  lemma {:induction false} FormattedAppend(a: seq<Row>, b: seq<Row>)
    ensures Formatted(a + b) == Formatted(a) + Formatted(b)
    decreases |b|
  {
    if b == [] {
      assert a + b == a;
    } else {
      var b' := b[..|b| - 1];
      FormattedAppend(a, b');
      assert (a + b)[..|a + b| - 1] == a + b';
      assert (a + b)[|a + b| - 1] == b[|b| - 1];
    }
  }

  /** Once the records of a prefix of the rows reach the limit, they are all
      the saved list holds. */
  lemma LimitReached(rows: seq<Row>, i: nat, data: seq<Record>)
    requires i <= |rows|
    requires data == Formatted(rows[..i]) && |data| == Limit
    ensures data == Take(Formatted(rows), Limit)
  {
    FormattedAppend(rows[..i], rows[i..]);
    assert rows[..i] + rows[i..] == rows;
    TakePrefix(data, Formatted(rows), Limit);
  }

  /** build_database. `ds` is the downloaded training split, None when
      load_dataset raised; the result is what is written, None when the
      script returns without writing. */
  method BuildDatabase(ds: Option<seq<Row>>) returns (saved: Option<seq<Record>>)
    ensures saved == Imported(ds)
  {
    if ds.None? {
      return None;
    }
    var rows := ds.value;
    var formattedData := [];
    var count := 0;
    var i := 0;
    while i < |rows|
      invariant 0 <= i <= |rows|
      invariant formattedData == Formatted(rows[..i])
      invariant count == |formattedData| < Limit
    {
      var row := rows[i];
      FormattedSnoc(rows, i);
      var userText := Get(row, "Context");
      var botText := Get(row, "Response");
      assert Format(row) == if Truthy(userText) && Truthy(botText)
        then Some(Record([userText.s], botText.s, General)) else None;
      if !Truthy(userText) || !Truthy(botText) {
        i := i + 1;
        continue;
      }
      var entry := Record([userText.s], botText.s, General);
      formattedData := formattedData + [entry];
      count := count + 1;
      if count >= Limit {
        LimitReached(rows, i + 1, formattedData);
        return Some(formattedData);
      }
      i := i + 1;
    }
    assert rows[..i] == rows;
    saved := Some(formattedData);
  }

  /** A row gives a record exactly when its context and its response are
      both present and non-empty, and the record holds them unmodified;
      with FormattedAppend this fixes the records of any rows. */
  lemma FormattedOne(row: Row)
    ensures var user := Get(row, "Context");
            var bot := Get(row, "Response");
            Formatted([row])
              == (if Truthy(user) && Truthy(bot) then [Record([user.s], bot.s, General)] else [])
  {
    assert [row][..0] == [];
  }

  /** The saved list never holds more than Limit records; when the rows
      give fewer, it holds all of them. */
  lemma ImportedBound(rows: seq<Row>)
    ensures var out := Imported(Some(rows)).value;
            |out| <= Limit && out <= Formatted(rows)
            && (|Formatted(rows)| <= Limit ==> out == Formatted(rows))
  {
  }
}
