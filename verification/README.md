# Query-side post-processing of a local RAG assistant

The assistant answers questions over a local vector store. It does so in two places: a
console loop (`rag_query.py`) and a `POST /ask` HTTP handler (`api.py`). Each of them
retrieves documents, asks a language model, and then does the same deterministic
post-processing:

- It decides whether the question asks for a yes/no answer. That is the case when the
  lower-cased question contains "oui ou non" or "yes or no".
- In yes/no mode it reduces the model's free text to "Oui", "Non" or "Je ne sais pas.".
- It joins the retrieved page contents into the prompt context, separated by blank lines.
- It cites up to three distinct `(source, chunk)` keys in first-occurrence order. Missing
  metadata defaults to "unknown" and "?".

The console loop also does two things the handler does not:

- It prints a one-line snippet for each cited document.
- It keeps a conversation history. The last six exchanges are rendered into the prompt.

The project models this post-processing in Dafny. The retriever's documents and the
model's raw answer are inputs: any sequence of documents and any string.

Modules:

- `Text` (`text.dfy`): the Python string operations used. These are ASCII `lower`,
  `strip` (via `lstrip` and `rstrip`), the substring test `in`, `join` and
  `replace("\n", " ")`.
- `YesNo` (`yesno.dfy`): yes/no detection and the answer normaliser that both callers
  share.
- `Retrieval` (`retrieval.dfy`): documents, citation keys, first-occurrence
  deduplication, citations, snippets and the context. Its reference definition is
  `FirstOccurrences`, which keeps a document exactly when no earlier one has its key.
- `History` (`history.dfy`): rendering of the conversation history.
- `Cli` (`cli.dfy`): a `Session` class that holds the history.
  - `Session.Step` is one iteration of the `while True` loop.
  - `Session.Run` is the loop over a sequence of console inputs. It stops at an "exit"
    line or when the sequence runs out (see "Left out" for what the program does
    there).
  - `ShowSources` is the source-listing loop with `continue`/`break`.
- `Api` (`api.dfy`): the `ask` handler (`Ask`) and its source loop (`CollectSources`).

Both source loops are proved equal to the same specification, `Citations`. So the
console listing and the HTTP `sources` name the same keys in the same order.

The history window is six exchanges (`History.Window`): `rag_query.py:91-93` slices
`[-6:]` on a list that holds one string per exchange.

## Model

| member | source | states |
|---|---|---|
| Text.IsSpace | rag_query.py:60 | the whitespace `strip` removes: tab, line feed, vertical tab, form feed, carriage return, 0x1C-0x1F and the space |
| Text.Lower | rag_query.py:65 | `.lower()`: same length, every character ASCII-lower-cased |
| Text.LowerChar | rag_query.py:65 | upper-case ASCII letters move by 32, everything else is unchanged, whitespace stays whitespace |
| Text.LowerIdempotent | rag_query.py:65 | lower-casing twice is lower-casing once |
| Text.LowerConcat | rag_query.py:65 | lower-casing distributes over concatenation |
| Text.LowerSlice | rag_query.py:65 | lower-casing commutes with slicing |
| Text.TrimStart | rag_query.py:60 | `lstrip`: a result no longer than the input, everything removed is whitespace, the result does not start with whitespace |
| Text.TrimStartIsSuffix | rag_query.py:60 | what `lstrip` keeps is a suffix of the input |
| Text.TrimEnd | rag_query.py:60 | `rstrip`: everything removed is whitespace, the result does not end with whitespace |
| Text.TrimEndIsPrefix | rag_query.py:60 | what `rstrip` keeps is a prefix of the input |
| Text.Strip | rag_query.py:60 | `strip`: the result is empty or starts and ends with non-whitespace |
| Text.StripSlice | rag_query.py:60 | the stripped text is a slice of the input with only whitespace on either side of it |
| Text.StripUnique | rag_query.py:60 | a non-empty slice with non-whitespace ends and only whitespace around it is exactly what `strip` returns |
| Text.StripIdempotent | api.py:61 | stripping twice is stripping once |
| Text.Contains | rag_query.py:65 | `p in s` holds exactly when `p` occurs at some offset of `s` |
| Text.ContainsBetweenSpace | rag_query.py:106-107 | a pattern without whitespace at its ends is found in a string exactly when it is found between the string's whitespace margins |
| Text.ContainsLowerStrip | rag_query.py:106-107 | `p in s.strip().lower()` equals `p in s.lower()` for such a pattern |
| Text.ContainsMiddle | rag_query.py:65 | a string contains any part that stands between two others |
| Text.NotContainsMissingChar | rag_query.py:107-111 | a pattern holding a character the string lacks is not found |
| Text.Join | rag_query.py:88 | `sep.join(xs)`: the parts in order with one separator between neighbours; its contract is stated by JoinAppend and JoinLength |
| Text.JoinAppend | rag_query.py:88 | joining two non-empty lists is joining their joins, in order |
| Text.JoinLength | rag_query.py:88 | a join has every part's full length plus one separator per gap |
| Text.TotalLengthAppend | rag_query.py:88 | the total length of two lists of parts is the sum of their total lengths |
| Text.ReplaceNewlines | rag_query.py:81 | `replace("\n", " ")`: same length, no line feed, every other character kept |
| YesNo.YesNoMode | rag_query.py:65 | "oui ou non" or "yes or no" occurs in the lower-cased question; its contract is stated by YesNoModeOccurs, YesNoModeIgnoresCase and YesNoModeIgnoresStrip |
| YesNo.YesNoModeOccurs | api.py:62 | yes/no mode holds exactly when one of the two phrases occurs at some offset of the lower-cased question, so the question has at least nine characters |
| YesNo.YesNoModeIgnoresCase | rag_query.py:65 | the mode does not depend on the case of the question |
| YesNo.YesNoModeIgnoresStrip | api.py:61-62 | yes/no mode of the stripped question equals yes/no mode of the raw line |
| YesNo.Normalise | rag_query.py:105-114 | the result is one of the three answers; a conflict gives "Non"; "Oui" exactly when only "oui" occurs, "Non" exactly when "non" occurs, "Je ne sais pas." exactly when neither does (case-insensitive, on the raw answer); the handler repeats the same table at api.py:72-81 |
| YesNo.PostProcess | rag_query.py:105-114 | in yes/no mode the answer is in the vocabulary, otherwise the raw answer is returned unchanged |
| YesNo.NormaliseFixesVocabulary | rag_query.py:106-114 | each of "Oui", "Non", "Je ne sais pas." normalises to itself |
| YesNo.NormaliseIdempotent | rag_query.py:105-114 | normalising twice is normalising once |
| YesNo.PostProcessIdempotent | rag_query.py:105-114 | post-processing twice under the same mode is post-processing once |
| YesNo.YesNoModeExample | rag_query.py:65 | "Réponds par oui ou non: Paris est en France?" is in yes/no mode |
| YesNo.NormaliseYesExample | rag_query.py:109-110 | "Oui, c'est correct." gives "Oui" |
| YesNo.NormaliseNoExample | rag_query.py:111-112 | "Non, ce n'est pas ça." gives "Non" |
| YesNo.NormaliseUnknownExample | rag_query.py:113-114 | "Peut-être." gives "Je ne sais pas." |
| YesNo.NormaliseConflictExample | rag_query.py:107-108 | "Oui mais non en fait" gives "Non" |
| Retrieval.KeyOf | api.py:86-88 | the `(source, chunk)` key of a document; its contract is stated by KeyOfDefaults |
| Retrieval.KeyOfDefaults | rag_query.py:74-76 | a missing "source" gives "unknown", a missing "chunk" gives "?", and a document with both gets its stored values |
| Retrieval.Get | rag_query.py:74-75 | `metadata.get(key, default)` |
| Retrieval.Keys | rag_query.py:74-76 | one `(source, chunk)` key per document, in order |
| Retrieval.KeysAppend | rag_query.py:73-76 | keys of a concatenation are the concatenated keys |
| Retrieval.Firsts | rag_query.py:73-79 | the first-occurrence scan keeps no more documents than it reads |
| Retrieval.FirstsProperties | rag_query.py:73-79 | the kept documents have pairwise distinct keys, are retrieved documents, and carry every retrieved key |
| Retrieval.SeenBefore | rag_query.py:77-78 | a key is in the seen set exactly when an earlier document has it |
| Retrieval.FirstsAreFirstOccurrences | rag_query.py:73-79 | the scan keeps exactly the first occurrence of every key, in retrieval order |
| Retrieval.FirstsStep | rag_query.py:77-79 | a seen key leaves the kept documents unchanged; a new one is appended |
| Retrieval.FirstsPrefix | rag_query.py:73-85 | reading more documents only extends the first occurrences found so far |
| Retrieval.Take | rag_query.py:84-85 | the first `min(n, len)` elements |
| Retrieval.Cited | rag_query.py:84-85 | at most three documents are cited |
| Retrieval.Citations | api.py:83-94 | at most three keys, pairwise distinct, all retrieved keys; when fewer than three, every retrieved key is among them |
| Retrieval.CitationsAreFirstKeys | api.py:83-94 | the citations are the keys of the first `min(3, #distinct keys)` first occurrences |
| Retrieval.CitationsStable | api.py:93-94 | after three distinct keys, later documents never change the citations |
| Retrieval.CitedStopsAt | rag_query.py:84-85 | when a prefix already holds three distinct keys, its first occurrences are the cited documents |
| Retrieval.MissingMetadataCollapses | api.py:86-87 | documents without metadata all collapse into the single citation ("unknown", "?") |
| Retrieval.Snippet | rag_query.py:81 | length `min(len, 180) + 3` and at most 183, no line feed, ends with "...", content kept with line feeds turned into spaces |
| Retrieval.Contents | rag_query.py:88 | the page contents, in retrieval order |
| Retrieval.Context | rag_query.py:88 | `""` for no documents, the page content itself for one document |
| Retrieval.ContextAppend | api.py:65 | the context of two batches is their contexts joined by a blank line, so retrieval order is kept |
| Retrieval.ContextLength | rag_query.py:88 | every document contributes its full text, duplicates included, plus two characters per gap |
| History.Format | rag_query.py:92 | the "User: ...\nAssistant: ..." text of one exchange |
| History.FormatAll | rag_query.py:92 | one formatted string per exchange, in order |
| History.Last | rag_query.py:92 | `s[-n:]`: the last `min(n, len)` elements |
| History.Render | rag_query.py:91-93 | an empty history renders as `""` |
| History.RenderIsWindow | rag_query.py:91-93 | the rendering is the last `min(6, len)` exchanges, oldest first, joined by line breaks |
| History.RenderDropsOlder | rag_query.py:92 | exchanges older than the last six are not rendered |
| History.RenderGrows | rag_query.py:91-93 | while fewer than six exchanges exist, a new one is rendered after the earlier ones |
| History.RenderSlides | rag_query.py:91-93 | once six exist, a new exchange pushes the oldest rendered one out |
| History.RenderSingle | rag_query.py:91-93 | a single exchange renders as "User: q\nAssistant: a" |
| Cli.Shown | rag_query.py:81-82 | one listed line: the document's key and its snippet; its contract is stated by ShownLine |
| Cli.ShownLine | rag_query.py:81-82 | the listed line carries the document's key and a single-line snippet of at most 183 characters ending in "..." |
| Cli.ShowAll | rag_query.py:81-82 | one shown line per document, in order |
| Cli.Listing | rag_query.py:71-85 | the listed keys are exactly the citations, in order, and every snippet is one line of at most 183 characters ending in "..." |
| Cli.ShowSources | rag_query.py:71-85 | the source loop produces the listing |
| Cli.IsExit | rag_query.py:60-61 | the stripped, lower-cased line is "exit"; its contract is stated by ExitLines |
| Cli.ExitLines | rag_query.py:60-61 | exactly the lines that spell "exit" in any case between whitespace margins end the loop |
| Cli.IsExitExample | rag_query.py:60-62 | "  EXIT\n" ends the loop |
| Cli.ExchangeOf | rag_query.py:104-117 | the appended question is the stripped line; in yes/no mode the answer is in the vocabulary, otherwise it is the raw answer |
| Cli.Transcript | rag_query.py:59-62 | one exchange at most per input |
| Cli.Answers | rag_query.py:119-120 | one printed answer per exchange: the i-th answer is the i-th exchange's answer |
| Cli.TranscriptWithoutExit | rag_query.py:59-117 | without an exit line every input appends its exchange, in order |
| Cli.TranscriptUpToExit | rag_query.py:59-62 | every exchange of the transcript belongs to a non-exit input at the same position, and the transcript is shorter than the inputs only where an exit line stands |
| Cli.TranscriptStopsAtExit | rag_query.py:61-62 | inputs after an exit line contribute nothing |
| Cli.TranscriptExtend | rag_query.py:117 | one more non-exit input appends exactly one exchange |
| Cli.TranscriptNext | rag_query.py:117-120 | a non-exit input reached by the loop appends its exchange and its answer |
| Cli.TranscriptEndsAt | rag_query.py:61-62 | the first exit line fixes the transcript |
| Cli.Session.constructor | rag_query.py:57 | the history starts empty |
| Cli.Session.Step | rag_query.py:59-117 | an exit line leaves the history unchanged; any other line yields the listing, the context, the rendering of the earlier history, the stripped question and the post-processed answer, and appends exactly one exchange |
| Cli.Session.Run | rag_query.py:59-120 | the history grows by the transcript of the inputs and the printed answers are its answers |
| Api.CollectSources | api.py:83-94 | the `sources` loop produces the citations |
| Api.Ask | api.py:59-96 | the prompt receives the context and the stripped question; in yes/no mode the answer is the normalised one in the vocabulary, otherwise the raw answer; `sources` are the citations |

## Left out

- The construction of the embeddings, vector store, retriever, language model and prompt
  template are left out, and so are the calls to them. They are foreign library calls.
  The retrieved documents and the raw answer are inputs.
- `prompt.format` is left out. The model records what each caller hands to the template:
  the context, the question and, in the console loop, the history text.
- Console I/O is left out. The prompt string, `input()` and the exact `print` formatting
  are not modelled. `Session.Run` reads lines from a sequence, and the listing and the
  answers are returned instead of printed.
- Cli.Session.Run: returns normally when its sequence of inputs runs out. The program
  instead ends with an uncaught `EOFError` from `input()` at rag_query.py:60 when the
  console input ends. The model does not capture that exception.
- FastAPI routing, the pydantic request model, the `/health` endpoint and the stdout
  encoding reconfiguration are left out.
- Text.Lower and Text.Strip follow Python only on ASCII. Unicode case mapping and
  Unicode whitespace are not modelled.
- Retrieval.MetaValue has strings and integers only. Float and boolean metadata values
  are not modelled.
- `rag_ingestion.py` is not part of this model: it does PDF reading, library chunking
  and storage. The metadata of retrieved documents is therefore arbitrary in the model.
  Documents without `source` and `chunk` metadata collapse into one citation, as
  `MissingMetadataCollapses` states.
- `data/rag_query.py` is not part of this model. It is glue around a library question
  answering chain and a console loop.
