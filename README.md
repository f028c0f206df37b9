# NeuroTherapy bot: a Dafny model of its reply pipeline and import scripts

This project models the logic of a small retrieval-augmented counselling
chatbot and of the three offline scripts that build its knowledge base, and
proves properties of that model with Dafny.

The bot (`therapy_bot.py`) handles each user message like this:

1. It records the message.
2. It screens the message for crisis keywords. A match shows the 988 alert
   and ends the turn.
3. It builds a search query from the tail of the message before the prompt
   and from the prompt itself.
4. It retrieves the stored answer whose patterns are most similar to the
   query.
5. If the best score is below 0.20, it asks the user to clarify.
6. Otherwise it sanitises the retrieved advice (URLs, e-mail addresses,
   honorific names and office locations are removed, and whitespace is
   normalised). It then asks a generator for a reply at most twice and
   keeps the first sample that passes a quality gate. If no sample passes,
   it uses a fixed fallback.

The import scripts turn dataset rows into knowledge-base records:

- `expand_brain.py` cleans two datasets, filters them by length, caps each
  at 1000 records and appends two hand-written records.
- `train_brain.py` picks a CSV file's question and answer columns by name,
  filters the rows and appends the result to the existing knowledge base.
- `import_data.py` copies the first 500 complete rows of one dataset.

## Modules

| file | module | what it holds |
|---|---|---|
| builtins.dfy | Builtins | the Python string and list built-ins the code uses, over ASCII: `lower`, `strip`, `in`, `replace`, `join` and slicing |
| patterns.dfy | Patterns | the URL pattern as a left-to-right scanner, shared by the bot and `clean_text`, and the lemmas all scanners share about the text they keep |
| sanitizer.dfy | Sanitizer | `DataSanitizer.clean`: the e-mail, honorific and location scanners, whitespace normalisation and the 1000-character cut |
| safety.dfy | Safety | `SafetySystem.scan` |
| engine.dfy | Engine | the knowledge-base entries, the `NeuralEngine` class (`_vectorize_database`, `retrieve`, `generate_response`) and `_verify_quality` |
| chat.dfy | Chat | one turn of the chat page as a function, and the session's `messages` list as a class |
| records.dfy | Records | dataset rows and the records the scripts write |
| expand_brain.dfy | ExpandBrain | `clean_text`, the two capped source loops and the final list |
| train_brain.dfy | TrainBrain | column selection, the row loop and the merge |
| import_data.dfy | ImportData | the row loop with `continue`, `break` and `LIMIT` |

Each regular expression is modelled as a scanner. Like `re.sub`, it tries a
match at each position of its own input and resumes after each match. The
scanners are written out for the specific patterns only.

### External parts

Parts that cannot be stated in Dafny are parameters:

- The sentence encoder's cosine similarity is a function
  `similarity(query, corpusText)`.
- The sampling generator is a function `generate(prompt, attempt)` that
  returns the decoded text of each attempt.
- A dataset download that raises is `None`.
- A downloaded dataset is a sequence of rows.
- The script's output file is the result of the script's method (`None`
  when nothing is written).

### Behaviour worth knowing

- `clean` is not idempotent.
  - A location phrase can be assembled by an earlier deletion:
    `"officeserving Xx in Yy"` becomes `"office in Yy"`, and a second pass
    deletes the rest (`DeleteLocationsNotIdempotent`).
  - The 1000-character cut can leave a trailing space that a second pass
    would strip.
- A knowledge-base entry without a `response` is kept, with the response
  `""` (`ResponseOf`, `Responses`).
- The query context is `messages[-2]` whenever there are more than two
  messages. After a crisis turn, that message is the user's earlier prompt,
  because a crisis turn records no reply (`QueryAfterCrisis`).

## Model

| member | source | states |
|---|---|---|
| Builtins.Lower | therapy_bot.py:41 | `str.lower()` keeps the length and lower-cases each character (ASCII) |
| Builtins.ContainsIff | therapy_bot.py:41 | the substring test `w in s` holds iff `w` occurs in `s` at some position |
| Builtins.Strip | therapy_bot.py:27 | `str.strip()` leaves no whitespace at either end |
| Builtins.StripOccurs | therapy_bot.py:27 | `str.strip()` removes whitespace only, and only at the two ends: the result occurs in the text with whitespace before and after it |
| Builtins.Take | therapy_bot.py:28 | the slice `[:n]` is a prefix of at most `n` elements, and the whole sequence when it has fewer than `n` |
| Builtins.TakeLast | therapy_bot.py:200 | the slice `[-n:]` is a suffix of at most `n` elements, and the whole sequence when it has fewer than `n` |
| Builtins.JoinAppend | therapy_bot.py:80 | `" ".join` of one more part adds the separator and that part |
| Builtins.ReplaceRemovesChar | expand_brain.py:15 | `replace` of a single character by text without it leaves none of that character |
| Builtins.ReplaceChars | therapy_bot.py:129 | `replace` brings in no character that neither the text nor the replacement holds |
| Patterns.DeleteUrls | therapy_bot.py:20 | the URL substitution never lengthens the text |
| Patterns.KeepsLeadingRun | therapy_bot.py:20 | a run of non-space characters that opens the substituted text was already the opening of the original |
| Patterns.LeadingUrlKept | therapy_bot.py:20 | a URL that opens the substituted text opened the original too: the substitution creates no URL at its front |
| Patterns.DeleteUrlsLeavesNone | therapy_bot.py:20 | after `re.sub(r'http\S+\|www\.\S+', '', ...)` no position of the text starts a URL match |
| Patterns.DeleteUrlsFixpoint | therapy_bot.py:20 | the URL substitution leaves a text unchanged exactly when the text holds no URL match (the same holds for `clean_text`'s `http\S+`, expand_brain.py:14) |
| Patterns.DeleteUrlsSplits | therapy_bot.py:20 | a whitespace character ends every URL match: the text on either side of it is substituted on its own and the character is kept; together with DeleteUrlsKeeps, what lies outside the matches survives |
| Patterns.DeleteUrlsKeeps | therapy_bot.py:20 | text in which no URL match starts is copied unchanged and the substitution resumes after it, so the characters before a URL inside the same non-space run survive ("xhttpy" becomes "x") |
| Sanitizer.DeleteEmailsLeavesNone | therapy_bot.py:22 | after `re.sub(r'\S+@\S+', '', ...)` no position starts an e-mail match |
| Sanitizer.DeleteEmailsFixpoint | therapy_bot.py:22 | the e-mail substitution changes exactly the texts that hold an address |
| Sanitizer.DeleteEmails | therapy_bot.py:22 | the e-mail substitution never lengthens the text |
| Sanitizer.KeepsRunWithoutEmail | therapy_bot.py:22 | when no address match starts at the front, the whole leading run of non-space characters is copied and scanning resumes after it |
| Sanitizer.LeadingEmailKept | therapy_bot.py:22 | a text that does not open with an address does not open with one after the substitution |
| Sanitizer.ReplacesHonorificAndName | therapy_bot.py:24 | at a word boundary, an honorific in any case, whitespace and a word of two or more letters in any case become "the therapist", and scanning resumes after the word |
| Sanitizer.KeepsHonorificAfterWord | therapy_bot.py:24 | after a word character the `\b` fails, so the character is kept and the scan moves on by one |
| Sanitizer.ReplaceNamesKeeps | therapy_bot.py:24 | text in which no honorific match starts is copied unchanged, and the scan resumes after it with the right `\b` context |
| Sanitizer.ReplaceNamesFixpoint | therapy_bot.py:24 | a text in which no honorific match starts anywhere is left unchanged |
| Sanitizer.DeletesLocation | therapy_bot.py:26 | "serving", "located in" or "office in" in any case, whitespace and a word in any case are deleted |
| Sanitizer.DeletesLocationInsideWord | therapy_bot.py:26 | the location pattern has no `\b`: a phrase that ends a longer word is deleted too, and the character before it is kept |
| Sanitizer.DeleteLocationsKeeps | therapy_bot.py:26 | text in which no location match starts is copied unchanged, and the scan resumes after it |
| Sanitizer.DeleteLocationsFixpoint | therapy_bot.py:26 | the location substitution changes exactly the texts that hold a location match |
| Sanitizer.DeleteLocationsNotIdempotent | therapy_bot.py:26 | one pass turns "officeserving Xx in Yy" into "office in Yy", and a second pass deletes that: the substitution is not idempotent |
| Sanitizer.DeleteLocations | therapy_bot.py:26 | the location substitution never lengthens the text |
| Sanitizer.CollapseSpaces | therapy_bot.py:27 | `re.sub(r'\s+', ' ', ...)`: the result is empty iff the input is; it starts with whitespace iff the input does; every whitespace character is a space; no two whitespace characters are adjacent |
| Sanitizer.CollapseKeepsText | therapy_bot.py:27 | collapsing whitespace keeps every non-whitespace character, in order |
| Sanitizer.CollapseSplits | therapy_bot.py:27 | a whitespace run between two non-whitespace characters becomes exactly one space, and the text on either side of it is collapsed on its own |
| Sanitizer.CollapseBefore | therapy_bot.py:27 | a text ending in a non-whitespace character is collapsed on its own when whitespace follows it |
| Sanitizer.CollapseFixpoint | therapy_bot.py:27 | the collapse leaves a text unchanged exactly when every whitespace character in it is a plain space and no two whitespace characters are adjacent |
| Sanitizer.StripKeepsSpacing | therapy_bot.py:27 | `.strip()` keeps the collapse's guarantees: only plain spaces, never two whitespace characters in a row |
| Sanitizer.Normalize | therapy_bot.py:27 | after the collapse and `.strip()`, the text has non-space ends, only plain spaces as whitespace and no two whitespace characters in a row |
| Sanitizer.NormalizeKeepsText | therapy_bot.py:27 | normalising whitespace keeps every non-whitespace character, in order |
| Sanitizer.StripKeepsText | therapy_bot.py:27 | `.strip()` removes whitespace only |
| Sanitizer.RedactKeepsPlain | therapy_bot.py:20-26 | a text with no URL, address, honorific or location match is left unchanged by the four substitutions |
| Sanitizer.Clean | therapy_bot.py:17-28 | `""` for the empty text; otherwise exactly the first min(1000, n) characters of the redacted, normalised text of length n; no leading whitespace; only plain spaces as whitespace; no two whitespace characters in a row |
| Safety.AnyInIff | therapy_bot.py:41 | the `any(...)` loop over the keywords holds iff some keyword is a substring of the lower-cased text |
| Safety.Scan | therapy_bot.py:40-43 | the 988 alert iff some crisis keyword occurs in the lower-cased text; None otherwise |
| Safety.ScanWrapped | therapy_bot.py:40-43 | wrapping an alerting text in more text never removes the alert |
| Safety.ScanIgnoresCase | therapy_bot.py:41 | the screen gives the same verdict on a text and on its lower-cased form |
| Safety.KillSubsumes | therapy_bot.py:34-37 | "kill myself" and "killing" never change the verdict: the list without them alerts on exactly the same texts |
| Safety.CrisisImpliesReduced | therapy_bot.py:34-37 | a text that alerts on the full keyword list alerts on the list without "kill myself" and "killing" |
| Safety.ReducedImpliesCrisis | therapy_bot.py:34-37 | a text that alerts on the reduced list alerts on the full list |
| Safety.SkillAlerts | therapy_bot.py:41 | matching is by substring, so "Skill" alerts |
| Engine.CorpusText | therapy_bot.py:78-80 | an entry without patterns gives `""`; a single pattern string is used as it is; a list of two or more is the join of all but the last, a space, and the last |
| Engine.CorpusTexts | therapy_bot.py:77-80 | one corpus text per entry, in order, each the entry's patterns joined by spaces |
| Engine.Responses | therapy_bot.py:77-81 | one response per entry, in order; a missing response is `""`, not skipped |
| Engine.NeuralEngine.constructor | therapy_bot.py:55-66 | the knowledge base is the parsed file, or `[]` when reading it raised; responses and corpus are built from it; no corpus when it is empty |
| Engine.NeuralEngine.VectorizeDatabase | therapy_bot.py:74-84 | `responses` and the corpus are index-aligned with `db_data`; the embeddings are replaced only when the corpus is non-empty |
| Engine.ArgMax | therapy_bot.py:97 | `argmax()` returns an index whose score is maximal and that comes before any other maximal index |
| Engine.NeuralEngine.Retrieve | therapy_bot.py:93-98 | `(None, 0.0)` without embeddings; otherwise the response at the first index of maximal similarity, with that similarity |
| Engine.RetrievedIsStored | therapy_bot.py:93-98 | a vectorised knowledge base answers every query with one of its own entries' responses |
| Engine.Scrub | therapy_bot.py:129 | the artifact clean-up ends in `.strip()`: the result has non-space ends |
| Engine.Prompt | therapy_bot.py:104-112 | the user's words appear verbatim at position 51 of the prompt, and the cleaned advice verbatim 22 characters after them |
| Engine.FirstAccepted | therapy_bot.py:116-134 | the retry loop's reply is the fallback or the scrubbed sample of one of the attempts it still has |
| Engine.NeuralEngine.GenerateResponse | therapy_bot.py:100-134 | the retry loop returns what `Generated` describes: the first scrubbed sample of at most two that passes the gate, else the fallback, with the cleaned advice |
| Engine.GeneratedIsFirstPassing | therapy_bot.py:116-134 | the reply is sample 0 if it passes, else sample 1 if it passes, else the fallback |
| Engine.GeneratedUsesAtMostTwoSamples | therapy_bot.py:116 | two samplers that agree on the first two attempts give the same reply, and when the first sample passes only the first attempt matters |
| Engine.FirstAcceptedPasses | therapy_bot.py:116-134 | whatever attempt the loop starts from, its reply passes `_verify_quality` |
| Engine.GeneratedPasses | therapy_bot.py:100-141 | every reply `generate_response` returns passes `_verify_quality` |
| Engine.FallbackPasses | therapy_bot.py:134-141 | the fallback reply passes the quality gate |
| Engine.AcceptedHasNoInstructions | therapy_bot.py:136-138 | text that passes the gate holds "instructions:" in no case |
| Engine.PassesWhen | therapy_bot.py:136-141 | a text of 20 or more characters that mentions none of "instruction", "houston" and "office" in any case passes the gate |
| Engine.VerifyQualityIff | therapy_bot.py:136-141 | `_verify_quality` accepts exactly the texts of 20 or more characters in whose lower-cased form none of "instruction", "houston" and "office" occurs at any position |
| Engine.PromptFailsGate | therapy_bot.py:104-139 | the engine's own prompt fails the gate, because it names "Houston" |
| Records.RecordAsEntry | therapy_bot.py:77-81 | the bot indexes a one-pattern record by that pattern and answers with its response |
| Chat.SearchQuery | therapy_bot.py:197-200 | the prompt alone when there are at most two messages; otherwise it starts with the last min(60, n) characters of the n-character `messages[-2]` and ends with a space and the prompt, and nothing else |
| Chat.Meta | therapy_bot.py:218 | the meta text is the first min(100, n) characters of the n-character context, followed by "..." |
| Chat.Respond | therapy_bot.py:178-221 | a turn ends in the alert iff the screen fires; an alert turn appends only the user's message; any other turn appends the user's message and then the reply with its meta, where reply and context are what `Answer` gives for the search query built from the messages with the prompt recorded |
| Chat.Answer | therapy_bot.py:206-215 | the reply of a screened turn passes `_verify_quality`, and its context is "None" or the cleaned text of one of the stored responses; HighScoreUsesAdvice and LowScoreClarifies pin the answer on each side of the 0.20 gate |
| Chat.RespondPassesGate | therapy_bot.py:178-221 | every reply a turn shows passes `_verify_quality` |
| Chat.Session.constructor | therapy_bot.py:155-156 | a session starts with the assistant's greeting alone |
| Chat.Session.Turn | therapy_bot.py:178-221 | the session's messages and the turn's outcome are those `Respond` gives for the messages before the turn |
| Chat.RespondExtends | therapy_bot.py:179-221 | a turn only appends: the earlier messages are unchanged, followed at once by the prompt |
| Chat.ClearedScoreHasAdvice | therapy_bot.py:206-215 | a score at or above 0.20 comes with retrieved advice |
| Chat.LowScoreClarifies | therapy_bot.py:208-211 | below 0.20 the reply is the clarification and the context is "None", whatever the generator would say; the meta is "None..." |
| Chat.HighScoreUsesAdvice | therapy_bot.py:212-215 | at or above 0.20 the reply and context are `generate_response`'s for the raw prompt and the retrieved advice, so the context is that advice cleaned |
| Chat.ClarificationPasses | therapy_bot.py:210 | the clarification reply passes the quality gate |
| Chat.QueryAfterCrisis | therapy_bot.py:179-200 | after a crisis turn, the next query starts from the tail of the crisis prompt itself |
| Chat.QueryAfterReply | therapy_bot.py:197-221 | after a reply, the next query starts from the tail of that reply |
| Chat.FirstQueryIsPrompt | therapy_bot.py:197-200 | the first turn of a session searches with the prompt alone |
| ExpandBrain.RemoveTagsLeavesNone | expand_brain.py:13 | after `re.sub(r'<[^>]+>', '', ...)` no position starts a tag match |
| ExpandBrain.RemoveTags | expand_brain.py:13 | the tag substitution never lengthens the text |
| ExpandBrain.RemoveTagsNoLt | expand_brain.py:13 | a text without `<` has no tag and is left unchanged |
| ExpandBrain.LeadingTagKept | expand_brain.py:13 | keeping a character that opens no tag and removing tags after it leaves no tag at the front |
| ExpandBrain.RemovesTag | expand_brain.py:13 | a `<`, one or more characters other than `>`, and a `>` are removed whole, and the scan goes on after them |
| ExpandBrain.RemoveTagsKeeps | expand_brain.py:13 | text in which no tag starts is copied unchanged, and the scan resumes after it |
| ExpandBrain.RemoveTagsFixpoint | expand_brain.py:13 | the tag substitution changes exactly the texts that hold a tag |
| ExpandBrain.LineBreaksGone | expand_brain.py:15 | after the two `replace` calls neither a line feed nor a carriage return is left |
| ExpandBrain.CarriageReturnEndsUrl | expand_brain.py:14 | `\S+` stops at a carriage return, so `"http\rx"` has no URL to delete yet |
| ExpandBrain.CleanText | expand_brain.py:11-16 | `""` for a non-string; no line feed or carriage return; no leading or trailing whitespace |
| ExpandBrain.CarriageReturnSplitsUrl | expand_brain.py:13-15 | the URL deletion runs before carriage returns are dropped, so `"http\rx"` becomes `"httpx"` |
| ExpandBrain.Kept | expand_brain.py:31-37 | at most one record per cleaned row; each has one pattern, both texts above the source's threshold and the source's tag |
| ExpandBrain.Converted | expand_brain.py:28-37 | at most one record per row, each of the source's shape |
| ExpandBrain.ConvertedOne | expand_brain.py:29-37 | a row gives a record exactly when both cleaned texts are longer than the threshold, and the record holds those texts and the source tag |
| ExpandBrain.ConvertedAppend | expand_brain.py:28-37 | the conversion works row by row and keeps the rows' order |
| ExpandBrain.CapReached | expand_brain.py:38-39 | once 1000 records are collected, they are the first 1000 records of the whole conversion |
| ExpandBrain.CollectSource | expand_brain.py:27-39 | a source loop returns the first 1000 records of its cleaned, filtered rows, in order |
| ExpandBrain.SourcePartShaped | expand_brain.py:67-79 | each source contributes at most 1000 records, each with one pattern, both texts above the source's threshold and the source's tag |
| ExpandBrain.ExpandBrainScript | expand_brain.py:22-99 | the saved list is the Counsel Chat part, then the Amod part with its own counter, then the hand-written records; a failed download contributes nothing |
| ExpandBrain.LayersOrdered | expand_brain.py:87-99 | in the assembled list the source tags never go back: Counsel Chat, then Amod, then the hand-written records; every record before the hand-written ones is a dataset record of their source's shape |
| ExpandBrain.ExpandedShape | expand_brain.py:87-99 | the list holds at most 2002 records; the two hand-written ones come last; Counsel Chat records come before Amod records, which come before the hand-written ones; every dataset record has one pattern and clears its source's threshold |
| TrainBrain.FirstColumn | train_brain.py:40-41 | a chosen column is a column of the file and a candidate |
| TrainBrain.FirstColumnIsFirst | train_brain.py:35-41 | the chosen column is the first candidate in the file's column order; there is none iff no column is a candidate |
| TrainBrain.Kept | train_brain.py:54-59 | at most one record per row; each has one pattern, a question longer than 5, an answer longer than 10 and the "kaggle_birdy654" tag |
| TrainBrain.KeptFrom | train_brain.py:51-59 | every record's question and answer are the stripped texts of some row |
| TrainBrain.CollectRows | train_brain.py:50-59 | the loop returns the records of the kept rows, in order |
| TrainBrain.NewEntriesOne | train_brain.py:51-59 | a row gives a record exactly when its stripped question is longer than 5 and its stripped answer longer than 10, and the record holds those texts and the "kaggle_birdy654" tag |
| TrainBrain.NewEntriesAppend | train_brain.py:50-59 | the conversion works row by row and keeps the rows' order |
| TrainBrain.NewEntriesShaped | train_brain.py:51-59 | every new record has one pattern, both texts stripped and long enough, and the tag |
| TrainBrain.MissingDropped | train_brain.py:51-54 | a row with a missing question or answer reads "nan" and is dropped |
| TrainBrain.CombinedKeepsBoth | train_brain.py:63-68 | the existing entries come first and unchanged, then the new ones; the length is the sum of the parts |
| TrainBrain.TrainBrainScript | train_brain.py:9-71 | the script writes what `Trained` describes, or nothing on a failed download, no CSV file, or a missing column |
| TrainBrain.TrainedWhen | train_brain.py:11-46 | something is written iff a CSV file came down and its columns include a question candidate and an answer candidate |
| TrainBrain.TrainedExtends | train_brain.py:50-68 | what is written starts with the existing entries, unchanged, and the rest are records of the script's shape |
| ImportData.Formatted | import_data.py:26-40 | at most one record per row |
| ImportData.FormattedOne | import_data.py:28-38 | one row's contribution: its record, or nothing when it is skipped |
| ImportData.FormattedAppend | import_data.py:27-40 | the conversion works row by row and keeps the rows' order |
| ImportData.LimitReached | import_data.py:41-44 | once 500 records are collected, they are the first 500 of the whole conversion |
| ImportData.BuildDatabase | import_data.py:10-49 | nothing is written when the download fails; otherwise the first 500 records of the non-skipped rows, in order |
| ImportData.ImportedBound | import_data.py:26-44 | at most 500 records are written, a prefix of all the records; when there are no more than 500, all of them |

## Left out

- The Streamlit page is not modelled: rendering, CSS, the sidebar, status widgets, `st.stop` beyond ending the turn, and `analyze_tokens` with its tokenizer (therapy_bot.py:86-91, 143-176). They are presentation and an external tokenizer.
- Model loading in `_initialize_models` is not modelled: the SentenceTransformer and the sequence-to-sequence model. The parsed knowledge base, or its absence, is the constructor's parameter.
- The encoder and `cos_sim` are not modelled. They are floating-point tensor code in a foreign library and stand behind the `similarity` parameter. `ArgMax` picks the first maximal index, as `torch.argmax` documents.
- Sampling and decoding are not modelled. They are stochastic and external and stand behind the `generate` parameter.
- File and network I/O is not modelled: `load_dataset`, `kagglehub`, `pandas.read_csv`, `glob`, `json.load`, `json.dump`, `print` and `tqdm`. Downloads are parameters, and written files are results.
- `lower()` and `\s` cover ASCII only. Unicode case folding and Unicode whitespace are not modelled.
- Knowledge-base files are limited to what the engine reads: a `patterns` field that is missing, a string or a list of strings, and an optional string `response`. Non-string JSON values are not modelled.
- `Records.Cell` covers strings and None only. Dataset fields of other types, which `clean_text` also turns into `""`, are not modelled.
- `TrainBrain.CsvCell` covers text and missing values only. Numbers that pandas parses, and their `str()` forms, are not modelled.
- The empty "SOURCE 2" loop of `expand_brain.py` (lines 45-60) is not modelled, since it adds nothing.
- An exception raised part-way through a source loop of `expand_brain.py` is not modelled. In Python, that loop's records appended so far are kept.
- `build_database.py` writes a literal list to a file and has no logic. It is not part of this model.
- Sanitizer.Clean: idempotence is not stated, because the code does not have it (see "Behaviour worth knowing").
- Patterns.DeleteUrls: the function's own contract is the length bound only. What it keeps is stated by DeleteUrlsKeeps, DeleteUrlsSplits, DeleteUrlsFixpoint and KeepsLeadingRun, because an ensures about its own unfolding would repeat its body.
- Sanitizer.DeleteLocations: the function's own contract is the length bound only. What it keeps is stated by DeleteLocationsKeeps and DeleteLocationsFixpoint, for the same reason.
- ExpandBrain.RemoveTags: the function's own contract is the length bound only. What it keeps is stated by RemoveTagsKeeps, RemovesTag and RemoveTagsFixpoint, for the same reason.
- Sanitizer.ReplaceNames: `\b` and `\w` are modelled on ASCII word characters. On a str pattern Python's `\w` also matches every other Unicode letter and digit, so a non-ASCII letter or digit right before "Dr." blocks the replacement in the code but not in the model.
- Sanitizer.ReplaceNames, Sanitizer.DeleteLocations: under `(?i)` Python's `[A-Z]` and `[a-z]` also match "İ" (U+0130), "ı" (U+0131), "ſ" (U+017F) and the Kelvin sign (U+212A). The model's letter class is ASCII only, so in a name or place that contains one of them the model matches fewer letters, or none, where the code matches them all. The same folding applies to the literal letters of the location phrases and honorifics: "ſerving Xx" and "located ın Xx" are deleted by the code and kept by the model.
- Engine.GeneratedUsesAtMostTwoSamples: the number of generator calls is stated as "only the first two samples matter", because a pure function of the sampler cannot count its calls.
- ExpandBrain.CollectSource: takes the cleaner as a parameter. `ExpandBrainScript` passes `CleanText`, and its contract is stated for that cleaner.
