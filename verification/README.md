# SmartBuddy study assistant: a Dafny model of its core

SmartBuddy is a Streamlit study assistant. It loads a text, which can be a PDF, a
YouTube transcript or typed text. It cuts the text into overlapping 500-character
chunks and stores them in a FAISS vector store, tagged with a source id. The
sidebar lists the sources, and the user ticks the ones a question may draw on.
Every question retrieves the best chunks of the ticked sources. These chunks and
the last three exchanges of the chat are pasted into a prompt for a local
DeepSeek model, run through `ollama`.

The model's reply is post-processed in several places:

- its first fenced code block is extracted;
- its `<think>...</think>` reasoning is quoted apart from the answer;
- for the study tools, it is parsed into flashcards, quiz cards or key points.

This project models that bookkeeping and those string transforms as pure
functions over immutable values, and proves what each one promises.

| module | file | what it models |
|---|---|---|
| `Options` | options.dfy | `Option`, and `Somes` (the defined values of a list, in order) |
| `Strings` | strings.dfy | Python's `str.strip`, `str.split`, `str.join`, `str.splitlines` and `in` |
| `Patterns` | patterns.dfy | `re.search` and `re.sub` for `open(.*?)close` with DOTALL and literal delimiters |
| `VectorStore` | vector_store.dfy | the records, the aligned index, `add_texts`, the post-processing in `query`, the snapshot, `clean_context` |
| `Chunking` | chunking.dfy | the fixed-window chunker |
| `Session` | session.dfy | the source list, the allowed ids, ingestion, the chat-memory window, the retrieved context |
| `OllamaChat` | ollama_chat.dfy | what `call_deepseek` does with the process outcome |
| `Answer` | answer.dfy | think extraction and assembly of the final chat message |
| `Flashcards` | flashcards.dfy | the flashcard parser |
| `Quiz` | quiz.dfy | the quiz parser |
| `KeyPoints` | key_points.dfy | the key-point parser |
| `Loader` | loader.dfy | video-id extraction, transcript and PDF joins, failure messages |

The model takes some things as parameters instead of computing them:

- The sentence embedder is a function `embed: string -> V` over an abstract vector type.
- The FAISS search is the list of `(position, score)` hits it returned. There are at most 10 hits, and the scores are integers.
- The source id, which the source draws from `uuid4`, is a parameter.
- The model process is given by how it ended (`OllamaChat.RunOutcome`).
- The transcript fetch is a parameter `fetch` from a video id to its outcome (`Loader.TranscriptFetch`).
- The PDF reader is given by the list of page texts it extracted.

A few regex details are modelled in a narrower form:

- Whitespace is the set of characters that Python's `str.isspace` and `\s` accept.
- `re.IGNORECASE` folds ASCII letters only.
- `\d` matches ASCII digits only.

## Model

| member | source | states |
|---|---|---|
| VectorStore.Load | vector_store.py:9-21 | the store reloaded from the saved index and record files, or an empty store when there is no snapshot |
| VectorStore.LoadAfterSave | vector_store.py:15-18 | reloading what `add_texts` saved gives back the same records and index, so every query answers the same afterwards |
| VectorStore.EmptyIsAligned | vector_store.py:13-21 | a fresh store has no records and no vectors, so vector `i` is the embedding of record `i` vacuously |
| VectorStore.AddTexts | vector_store.py:23-30 | one record per document, in order, tagged with the source id; the existing records and vectors are kept; the vector and record counts grow by the same amount; alignment of vectors with records is preserved |
| VectorStore.AddNothing | vector_store.py:23-27 | in the model, adding no documents leaves the store unchanged (the source has no guard for this case) |
| VectorStore.FirstScoreOfDistinct | vector_store.py:43 | the `list(indices[0]).index(idx)` lookup gives a hit its own score when no position repeats |
| VectorStore.CollectSound | vector_store.py:37-43 | every collected candidate passes the `-1`, bounds and source tests and comes from the search, with at most one entry per hit |
| VectorStore.CollectComplete | vector_store.py:38-43 | every hit that passes the tests is collected, with the score of the first hit at its position |
| VectorStore.SortOrders | vector_store.py:46 | the sort leaves scores non-increasing and is a permutation of the candidates |
| VectorStore.SortIsStable | vector_store.py:46 | candidates with equal scores keep their search order |
| VectorStore.PyTake | vector_store.py:49 | Python's `xs[:k]` is a prefix of `xs` of length `min(k, len)`, or `len + k` (floored at 0) for negative `k` |
| VectorStore.RankedFacts | vector_store.py:37-46 | the ranked candidates are admissible and come from the search; they are sorted by descending score and stable; none that passes the tests is missing |
| VectorStore.Query | vector_store.py:32-51 | exactly `min(k, n)` records for the `n` ranked candidates (and `max(n + k, 0)` for a negative `k`, as Python's `[:k]` does), never more than 10; every record is a stored one; with a source filter every source is allowed; an empty filter gives nothing; record `i` is the record at the `i`-th ranked position |
| VectorStore.NoFilterKeepsEveryValidHit | vector_store.py:38-50 | without a filter, every in-range position reaches the ranking; with `k` large enough, every ranked one reaches the result |
| VectorStore.InvalidPositionsDropped | vector_store.py:39-41 | position `-1` and positions outside the record list are never ranked |
| VectorStore.CleanContext | vector_store.py:53-56 | the result is stripped and has no two adjacent whitespace characters; for input without a newline, no `[` is followed later by `]`; for input without `[`, the non-whitespace text is unchanged |
| VectorStore.CollapseHasNoDoubleSpace | vector_store.py:55 | collapsing whitespace runs leaves no two whitespace characters side by side |
| VectorStore.CollapseKeepsNonSpace | vector_store.py:55 | collapsing changes only whitespace: the non-whitespace text is the same |
| VectorStore.RemoveBracketsNoPair | vector_store.py:54 | on text without newlines, deleting the `[...]` spans leaves no `[` with a `]` after it |
| VectorStore.RemoveBracketsAt | vector_store.py:54 | the leftmost `[` whose next `]` comes before any newline is deleted through that `]`, and deletion resumes after it |
| VectorStore.RemoveBracketsWithoutOpen | vector_store.py:54 | text without `[` is left unchanged |
| Chunking.Chunks | main.py:53 | the number of chunks is `len(range(0, len(text), 450))` |
| Chunking.ChunkCountIsCeiling | main.py:53 | the count is `ceil(len/450)`: zero exactly for the empty text; the last chunk starts inside the text |
| Chunking.ChunkShape | main.py:53 | chunk `i` is `text[450*i : 450*i+500]`; it is non-empty and at most 500 long, and full length unless it reaches the end of the text |
| Chunking.ChunksUnfold | main.py:53 | the chunks are the first window followed by the chunks of the text after the first stride |
| Chunking.ReassembleChunks | main.py:53 | concatenating the first 450 characters of every chunk gives back the text exactly |
| Chunking.ChunksOverlap | main.py:53 | a chunk with a successor is at least 450 long, and the successor begins with everything after the chunk's first 450 characters (the last 50 of a full chunk) |
| Session.AllowedIdsMembership | main.py:77 | an id is allowed exactly when some ticked source carries it |
| Session.AllowedIdsAppend | main.py:57-77 | a source appended at the end adds its id at the end of the allowed ids when it is ticked, and nothing otherwise |
| Session.AddKnowledge | main.py:52-61 | an empty text changes nothing; otherwise the source is appended, ticked; the old records are kept; the record/vector alignment is preserved |
| Session.AddKnowledgeStoresChunks | main.py:52-61 | after a non-empty text, the new records are exactly its `ceil(len/450)` chunks, in order, all tagged with the new id; their heads spell out the text; the new id is the last allowed id |
| Session.MemoryWindow | main.py:116-118 | `history[-6:]`: the last `min(6, len)` turns, as a suffix of the history |
| Session.MemoryIgnoresOlderTurns | main.py:116-122 | turns before the last six never reach the memory text |
| Session.ParseLineOf | main.py:119-122 | a turn's line reads back as `User: ` for the role "user" and `Assistant: ` for any other, followed by its message |
| Session.MemoryRoundTrip | main.py:116-122 | when no message in the window has a newline, the memory text reads back into the window's turns, in order, with their speakers and messages |
| Session.RenderSplitsIntoLines | main.py:119-122 | the memory text splits at newlines into one labelled line per turn and a final empty piece |
| Session.RetrievedContextUsesTopThree | main.py:113 | only the first three retrieved chunks reach the prompt, and the first of them starts it |
| OllamaChat.FencedCode | ollama_chat.py:21-26 | there is code exactly when two non-overlapping fences occur; the code is stripped and holds no fence |
| OllamaChat.FencedCodeAt | ollama_chat.py:21-23 | for any reply, the code is the stripped text between the first fence and the nearest fence starting at or after its end |
| OllamaChat.CallDeepseek | ollama_chat.py:15-33 | on success the reply text is the stripped standard output and the code is the fenced code found in it; each failure gives its fixed message with no code |
| OllamaChat.CompletedKeepsOutput | ollama_chat.py:15 | on success already-stripped output is returned unchanged, and the reply text is empty exactly when the output is all whitespace |
| OllamaChat.CompletedOutputUnique | ollama_chat.py:15 | any stripped text that the output surrounds with whitespace only is the reply text, so the reply text is determined |
| Patterns.FirstPairFirst | ollama_chat.py:21 | the match found is the leftmost one, and its lazy body stops at the nearest closing delimiter |
| Patterns.FirstPairIffHasPair | ollama_chat.py:21 | the search succeeds exactly when an opening delimiter is followed by a closing one |
| Patterns.FirstPairAt | ollama_chat.py:21 | the first opening delimiter, together with the first closing delimiter after it, is the match found |
| Patterns.PairInComposed | main.py:146-149 | in `pre + open + body + close + post`, the match is the one written out, its body is `body`, and substitution keeps `pre` and goes on in `post` |
| Patterns.RemovePairsShrinks | main.py:149 | substitution leaves text without a pair unchanged, never lengthens it, and removes at least both delimiters when there is a pair |
| Patterns.RemovePairsLacksChar | main.py:149 | substitution only keeps pieces of the text, so a character absent from the text is absent from the result |
| Answer.ThinkText | main.py:146-147 | the think text is stripped and never holds a closing tag; it is non-empty only when the reply holds a think block |
| Answer.ThinkBlockFound | main.py:146-149 | for a reply `pre <think>t</think> post`, the think text is `t` stripped and the answer is what is left of `pre` and `post` |
| Answer.AnswerText | main.py:149 | the answer is stripped and no longer than the reply; it is the stripped reply when there is no think block |
| Answer.UnquoteFormatThink | main.py:151-153 | the quoted reasoning loses nothing: unquoting it gives back reasoning whose line breaks are all `\n` |
| Answer.Body | main.py:159-162 | the answer part is never empty: it is the answer, or the notice when the answer is empty |
| Answer.ThinkPart | main.py:151-161 | the reasoning part is empty exactly when there is no think text |
| Answer.CodePart | main.py:155-163 | the code part is empty exactly when there is no code |
| Answer.FinalMessageStart | main.py:159-162 | the message opens with the quoted reasoning and its header when there is reasoning, and with the answer or the notice otherwise |
| Answer.FinalMessageEnd | main.py:155-163 | the message closes with the Python code block when there is code, and with the answer or the notice otherwise |
| Answer.ThinkRecoverable | main.py:151-163 | the reasoning can be read back from the front of the final message |
| Answer.FinalMessageMiddle | main.py:159-163 | between the quoted reasoning and the code block the message holds exactly the answer or the notice |
| Answer.EmptyAnswerGivesNotice | main.py:162 | an empty answer is replaced by the "No answer returned" notice, which sits between the reasoning and the code, and opens the message when there is no reasoning |
| Flashcards.SplitBlankLines | main.py:222 | the split always yields at least one block, as `re.split` does |
| Flashcards.BlocksLackBlankLine | main.py:222 | no block of the split holds a blank line |
| Flashcards.BlocksTrimmedAtCuts | main.py:222 | the split cuts at whole newline runs: no newline of a separator is left on a block |
| Flashcards.SplitBlankLinesOfJoin | main.py:222 | blocks written one blank line apart are split back out exactly |
| Flashcards.SplitBlankLinesWeave | main.py:222 | for every text, the blocks with the cut newline runs (each of two or more newlines) put back between them are the text |
| Flashcards.SplitBlankLinesOfWeave | main.py:222 | blocks separated by newline runs of any length of at least two are split back out exactly |
| Flashcards.FindLabelFirst | main.py:226-227 | the label search finds the first case-insensitive occurrence |
| Flashcards.FieldFoundIff | main.py:226-227 | a field is found exactly when some label occurrence is followed, after whitespace only, by a character other than a newline |
| Flashcards.FieldOfCard | main.py:226-232 | after the first label, whitespace, then a stripped one-line value: the field is that value |
| Flashcards.CardOf | main.py:226-232 | a card's question and answer are stripped single lines |
| Flashcards.CardOfIff | main.py:228 | a block makes a card exactly when both patterns can match in it |
| Flashcards.CardOfPromptFormat | main.py:208-232 | a block `Question: q` / `Answer: a`, written as the prompt asks, gives the card `(q, a)` |
| Flashcards.Cards | main.py:225-232 | there are at most as many cards as blocks |
| Flashcards.CardsAppend | main.py:225-232 | parsing keeps block order |
| Flashcards.CardsMembership | main.py:225-232 | a card comes out exactly when some block parses to it: none is invented and none is lost |
| Flashcards.FlashcardsOfBlocks | main.py:216-232 | a reply whose cleaned answer is blocks one blank line apart yields the cards of exactly those blocks, in order |
| Quiz.JoinSplitQuestions | main.py:321 | nothing is lost: joining the blocks with newlines gives the text back |
| Quiz.BlocksStartNumbered | main.py:321 | every block after the first starts with a number and a dot |
| Quiz.BlocksHaveNoBreak | main.py:321 | no block holds a newline followed by a number and a dot |
| Quiz.SplitQuestionsFirstIsPrefix | main.py:321 | the first block is the text up to the first separator |
| Quiz.SplitQuestionsOfJoin | main.py:321 | blocks without separators, each after the first numbered, are recovered from their newline join |
| Quiz.QuestionText | main.py:328 | the question is stripped and no longer than its line; it is the stripped line when the line has no bold span |
| Quiz.BoldQuestion | main.py:328 | a question `pre**x**` reads as `pre` followed by `x`, stripped |
| Quiz.DropCharLacks | main.py:332 | `replace('-', '')` leaves no hyphen and adds nothing |
| Quiz.CleanOption | main.py:332 | a cleaned option holds no hyphen and is stripped |
| Quiz.MarkedOption | main.py:332 | `- x` and `- x (Correct Answer)` both read as `x` |
| Quiz.QuizOptionsMembership | main.py:331-334 | an option is exactly the non-empty cleaning of some later line |
| Quiz.QuizOptionsAppend | main.py:331-334 | the options keep the order of the lines |
| Quiz.QuizCardOf | main.py:324-334 | the question is a stripped single line; every option is non-empty and holds no hyphen |
| Quiz.QuizCardOfLines | main.py:324-334 | a block that is a question line followed by option lines gives that question and the options of those lines |
| Quiz.QuizOf | main.py:288-334 | one card per block of the cleaned reply, card `i` being the parse of block `i` alone |
| Quiz.QuizOfQuestions | main.py:286-334 | a reply whose cleaned text is numbered questions one line apart gives one card per question, in order, each parsed from its own block |
| KeyPoints.PointLinesMembership | main.py:376 | a point is exactly a stripped line of the output with something left |
| KeyPoints.PointLinesShape | main.py:376 | every point is a non-empty, stripped single line |
| KeyPoints.PointLinesOfJoin | main.py:376 | points written one per line come back as written and in order |
| KeyPoints.OutputHasPoint | main.py:368-376 | a non-empty cleaned output always has at least one point |
| KeyPoints.DropNumber | main.py:379 | removing the number leaves a suffix of the line, the line itself when it does not start with a digit, and keeps it stripped |
| KeyPoints.DropNumberOf | main.py:379 | `N.` followed by any whitespace, then text, reads as that text |
| KeyPoints.PointOf | main.py:379-385 | a point has a title exactly when a colon is left after the number is dropped; the title holds no colon, and both halves are stripped; a plain point is the number-dropped line itself |
| KeyPoints.TitleAtFirstColon | main.py:381-383 | whatever the spacing, the title is the stripped text before the first colon and the description the stripped text after it |
| KeyPoints.TitledPoint | main.py:379-383 | `N. title: description` gives back the title and the description |
| KeyPoints.PlainPoint | main.py:379-385 | `N. text` without a colon is shown as `text` |
| KeyPoints.KeyPointsOf | main.py:357-388 | a blank input gives the warning; an empty cleaned reply gives the no-points notice; otherwise there is at least one point, and point `i` is the parse of the `i`-th stripped non-blank line of the cleaned reply |
| KeyPoints.KeyPointsOfNumberedLines | main.py:364-385 | a reply of numbered `title: description` lines gives those titles and descriptions back, one point per line, in order |
| Loader.VideoId | loader.py:20 | the id holds no `&` and no `v=` |
| Loader.AfterLastMarkerIsSuffix | loader.py:20 | the id is taken from a suffix of the URL that holds no `v=`; it follows the last `v=`, or is the whole URL when there is none |
| Loader.VideoIdCutsAtAmpersand | loader.py:20 | the id is that suffix up to its first `&` |
| Loader.VideoIdOfWatchUrl | loader.py:20 | for `prefix + "v=" + id + params`, the id is extracted exactly |
| Loader.LoadTranscript | loader.py:18-28 | a successful fetch gives the entry texts joined by single spaces, in order; each kind of fetch failure gives its fixed bracketed message; any other error gives the prefix followed by the error text |
| Loader.TranscriptKeepsEntries | loader.py:22 | every entry appears in the transcript unchanged and in order, one space after the previous one; entries without spaces split back out |
| Loader.PdfKeepsPages | loader.py:6-8 | every page appears in the text unchanged and in page order, one newline after the previous one; single-line pages split back out |
| Loader.FailureMessagesDistinct | loader.py:23-28 | the three failure messages can be told apart, whatever the error text |
| Strings.JoinSplit | main.py:324 | `sep.join(s.split(sep))` gives back `s` |
| Strings.SplitJoin | main.py:324 | parts that never hold the separator's first character are split back out of their join |
| Strings.SplitPiecesLackSeparator | main.py:324 | no piece of a split holds the separator |
| Strings.JoinSplitLines | main.py:153 | joining `splitlines()` with `\n` gives back a text whose breaks are all `\n` and which does not end in one |
| Strings.LinesHaveNoBreaks | main.py:376 | no piece of `splitlines()` holds a line break |
| Strings.StripUnique | ollama_chat.py:15 | `strip()` is the only cut of a text into whitespace, a stripped middle and whitespace |
| Strings.StripKeepsStripped | vector_store.py:56 | `strip()` leaves text that is already stripped unchanged, so stripping twice is stripping once |

## Left out

- The Streamlit interface is left out: widgets, spinners, HTML and CSS, Markdown rendering, the sidebar checkboxes that flip `checked`, and every warning or info box. It is presentation and I/O. The study tools are modelled on the reply they receive.
- The loader dispatch in main.py 40-50, `load_text` and `load_url`: these are file decoding and HTTP scraping with BeautifulSoup, with no logic of their own.
- The prompt texts are left out. The model's reply to a prompt is a parameter.
- The retrieval guard in main.py 199-200 (no chunks found) is left out. It only chooses a warning.
- voice_to_speech.py is not part of this model. It is speech recognition and file I/O.
- Sentence embedding, L2 normalisation and the FAISS flat inner-product search are left out. They are a foreign library over floats. The embedder is an abstract function, and the search is the list of hits it returned. Scores are integers.
- The code at vector_store.py:35 fetches a fixed 10 neighbours whatever `k` is, and the model does the same.
- Writing and reading the index and pickle files is modelled as a snapshot value equal to the store. Non-atomic writes and a missing data file beside an existing index are not modelled.
- Error strings from the loader (for example `[Error: Video is unavailable]`) are ingested like any other text. The model treats them as text too.
- `uuid4` is a parameter, so the model does not promise that ids are unique.
- The `if not lines` branch in main.py 325-326 is unreachable, because `str.split` always returns at least one piece. The model has no such case.
- The `'full' in ...` tests in main.py 288 and 364, and the "Failed to generate key points" branch in main.py 390, cannot fail, because `call_deepseek` always returns a `full` entry. The model has no such case.
- The debugging `print` calls in ollama_chat.py are I/O.
- Flashcards.FieldValue and Flashcards.CardOf: `re.IGNORECASE` and `\s` are modelled for ASCII case folding and Python's whitespace set only. Unicode case folding is not modelled.
- KeyPoints.DropNumber and Quiz.SplitQuestions (`NumberedAt`, for the `\n(?=\d+\.)` split): `\d` is modelled as ASCII digits only. Python also accepts other Unicode decimal digits.
- VectorStore.AddNothing: the no-op for an empty document list is the model's choice. `add_texts` has no guard of its own, so what `encode([])` and the FAISS `add` of its result do is up to those libraries; main.py:52 only calls it with a non-empty chunk list.
- VectorStore.CleanContext: bracket-pair freedom is proved only for input without newlines. A `[` can survive before a newline with a `]` later, exactly as in the source.
