/** The knowledge-base records the import scripts write, and the dataset
    rows they read. */
module Records {
  import opened Builtins
  import Engine

  /** A field of a dataset row: a string, or None. */
  datatype Cell = Str(s: string) | Null

  /** A dataset row, by column name. */
  type Row = map<string, Cell>

  /** row.get(key, ''): a missing column reads as the empty string. */
  function Get(row: Row, key: string): Cell {
    if key in row then row[key] else Str("")
  }

  /** The third key of a record: "source" in the expansion and training
      scripts, "category" in the import script. */
  datatype Tag = Source(name: string) | Category(name: string)

  /** {"patterns": patterns, "response": response, <tag>} */
  datatype Record = Record(patterns: seq<string>, response: string, tag: Tag)

  /** A record as the bot reads it back from the knowledge-base file. */
  function AsEntry(r: Record): Engine.Entry {
    Engine.Entry(Engine.Several(r.patterns), Some(r.response))
  }

  /** The bot searches a one-pattern record by that pattern and answers
      with its response. */
  lemma RecordAsEntry(r: Record)
    requires |r.patterns| == 1
    ensures Engine.CorpusText(AsEntry(r)) == r.patterns[0]
    ensures Engine.ResponseOf(AsEntry(r)) == r.response
  {
  }
}
