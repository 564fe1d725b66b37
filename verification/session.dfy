/**
 The bookkeeping `main.py` keeps in the Streamlit session: the knowledge-base
 source list and the ids of the sources the user has ticked, the ingestion of a
 loaded text (chunk, store, register the source), and the chat-memory window
 that is pasted into every prompt.
 */
module Session {
  import opened Strings
  import opened VectorStore
  import opened Chunking

  // ---------------------------------------------------------------------------
  // Knowledge-base sources

  /** One entry of `st.session_state.sources`: `{"id", "name", "checked"}`. */
  datatype Source = Source(id: string, name: string, checked: bool)

  /** `[src["id"] for src in sources if src.get("checked", False)]`. */
  function AllowedIds(sources: seq<Source>): (ids: seq<string>)
    ensures |ids| <= |sources|
  {
    if sources == [] then []
    else (if sources[0].checked then [sources[0].id] else []) + AllowedIds(sources[1..])
  }

  /** An id is allowed exactly when some ticked source carries it. */
  lemma {:induction false} AllowedIdsMembership(sources: seq<Source>, id: string)
    ensures id in AllowedIds(sources) <==> exists i :: 0 <= i < |sources| && sources[i].checked && sources[i].id == id
  {
    if sources != [] {
      AllowedIdsMembership(sources[1..], id);
      if id in AllowedIds(sources[1..]) {
        var i :| 0 <= i < |sources[1..]| && sources[1..][i].checked && sources[1..][i].id == id;
        assert sources[i + 1] == sources[1..][i];
      }
      if exists i :: 0 <= i < |sources| && sources[i].checked && sources[i].id == id {
        var i :| 0 <= i < |sources| && sources[i].checked && sources[i].id == id;
        if i > 0 {
          assert sources[1..][i - 1] == sources[i];
        }
      }
    }
  }

  /** The allowed ids keep the order of the source list: a source appended at the end adds its id at the end. */
  lemma {:induction false} AllowedIdsAppend(sources: seq<Source>, s: Source)
    ensures AllowedIds(sources + [s]) == AllowedIds(sources) + (if s.checked then [s.id] else [])
  {
    if sources == [] {
      assert [] + [s] == [s];
      assert [s][1..] == [];
    } else {
      var x, t := sources[0], sources[1..];
      var h, e := (if x.checked then [x.id] else []), (if s.checked then [s.id] else []);
      assert sources == [x] + t;
      calc {
        AllowedIds(sources + [s]);
        { assert sources + [s] == [x] + (t + [s]); }
        AllowedIds([x] + (t + [s]));
        { AllowedIdsCons(x, t + [s]); }
        h + AllowedIds(t + [s]);
        { AllowedIdsAppend(t, s); }
        h + (AllowedIds(t) + e);
        (h + AllowedIds(t)) + e;
        { AllowedIdsCons(x, t); }
        AllowedIds(sources) + e;
      }
    }
  }

  lemma AllowedIdsCons(x: Source, xs: seq<Source>)
    ensures AllowedIds([x] + xs) == (if x.checked then [x.id] else []) + AllowedIds(xs)
  {
    assert ([x] + xs)[1..] == xs;
  }

  // ---------------------------------------------------------------------------
  // Ingestion of a loaded text

  /** The parts of the session that the knowledge-base sidebar changes. */
  datatype SessionState<V> = SessionState(store: Store<V>, sources: seq<Source>)

  /** The chunk texts of some records. */
  function ChunkTexts(rs: seq<Record>): (cs: seq<string>)
    ensures |cs| == |rs|
    ensures forall i :: 0 <= i < |rs| ==> cs[i] == rs[i].chunk
  {
    seq(|rs|, i requires 0 <= i < |rs| => rs[i].chunk)
  }

  /**
   "Add to Knowledge Base" once a text has been loaded: an empty text adds
   nothing; otherwise its chunks go into the store under the fresh `sourceId`
   (the `uuid4` string, a parameter here) and the source is listed, ticked.
   */
  function AddKnowledge<V>(ses: SessionState<V>, text: string, name: string, sourceId: string, embed: string -> V): (r: SessionState<V>)
    ensures text == [] ==> r == ses
    ensures text != [] ==> r.sources == ses.sources + [Source(sourceId, name, true)]
    ensures |r.store.texts| >= |ses.store.texts|
    ensures r.store.texts[..|ses.store.texts|] == ses.store.texts
    ensures Aligned(ses.store, embed) ==> Aligned(r.store, embed)
  {
    if text == [] then ses
    else SessionState(AddTexts(ses.store, Chunks(text), sourceId, embed), ses.sources + [Source(sourceId, name, true)])
  }

  /**
   After adding a non-empty text, the new records are exactly its chunks, in
   order, all tagged with the new id; their heads spell out the text; and the new
   id is the last allowed id.
   */
  lemma AddKnowledgeStoresChunks<V>(ses: SessionState<V>, text: string, name: string, sourceId: string, embed: string -> V)
    requires text != []
    ensures var r := AddKnowledge(ses, text, name, sourceId, embed);
      var added := r.store.texts[|ses.store.texts|..];
      && |added| == ChunkCount(|text|)
      && (forall i :: 0 <= i < |added| ==> added[i].source == sourceId)
      && ChunkTexts(added) == Chunks(text)
      && Reassemble(ChunkTexts(added)) == text
      && AllowedIds(r.sources) == AllowedIds(ses.sources) + [sourceId]
  {
    var r := AddKnowledge(ses, text, name, sourceId, embed);
    var n := |ses.store.texts|;
    var added := r.store.texts[n..];
    forall i | 0 <= i < |added| ensures added[i] == Record(Chunks(text)[i], sourceId) {
      assert added[i] == r.store.texts[n + i];
    }
    ReassembleChunks(text);
    AllowedIdsAppend(ses.sources, Source(sourceId, name, true));
  }

  // ---------------------------------------------------------------------------
  // Chat memory

  /** One entry of `chat_history`: `(role, message)`. */
  datatype Turn = Turn(role: string, message: string)

  /** `history_limit`: the memory holds this many exchanges, two turns each. */
  const HistoryLimit: nat := 3

  /** `history[-history_limit * 2:]`: the last six turns, or all of them when there are fewer. */
  function MemoryWindow(history: seq<Turn>): (w: seq<Turn>)
    ensures |w| == Min(2 * HistoryLimit, |history|)
    ensures w == history[|history| - |w|..]
  {
    if |history| > 2 * HistoryLimit then history[|history| - 2 * HistoryLimit..] else history
  }

  /** The label a turn is written with: `User: ` for the role "user", `Assistant: ` for any other. */
  function Speaker(t: Turn): string {
    if t.role == "user" then "User: " else "Assistant: "
  }

  function LineOf(t: Turn): string {
    Speaker(t) + t.message
  }

  /** Each turn as a labelled line, each followed by `\n`. */
  function Render(turns: seq<Turn>): string {
    if turns == [] then "" else LineOf(turns[0]) + "\n" + Render(turns[1..])
  }

  /** The `memory_context` string built by the loop over the window. */
  function MemoryContext(history: seq<Turn>): string {
    Render(MemoryWindow(history))
  }

  /** Turns older than the last six never reach the prompt. */
  lemma MemoryIgnoresOlderTurns(older: seq<Turn>, recent: seq<Turn>)
    requires |recent| >= 2 * HistoryLimit
    ensures MemoryContext(older + recent) == MemoryContext(recent)
  {
    var h := older + recent;
    var k := |recent| - 2 * HistoryLimit;
    assert |h| == |older| + |recent|;
    assert MemoryWindow(h) == h[|older| + k..];
    assert MemoryWindow(recent) == recent[k..];
    assert h[|older| + k..] == recent[k..];
  }

  /** The turn as the memory text presents it: the role is only told apart as "user" or not. */
  function Normalize(t: Turn): Turn {
    Turn(if t.role == "user" then "user" else "assistant", t.message)
  }

  /** Every turn as the memory text presents it. */
  function NormalizeAll(turns: seq<Turn>): (ns: seq<Turn>)
    ensures |ns| == |turns|
    ensures forall i :: 0 <= i < |turns| ==> ns[i] == Normalize(turns[i])
  {
    seq(|turns|, i requires 0 <= i < |turns| => Normalize(turns[i]))
  }

  /** Reads one memory line back into a turn. */
  function ParseLine(line: string): Turn {
    if |line| >= 6 && line[..6] == "User: " then Turn("user", line[6..])
    else if |line| >= 11 then Turn("assistant", line[11..])
    else Turn("assistant", "")
  }

  /** Reads a memory text back: one turn per `\n`-terminated line. */
  function ParseMemory(text: string): seq<Turn> {
    var lines := Split(text, "\n");
    seq(|lines| - 1, i requires 0 <= i < |lines| - 1 => ParseLine(lines[i]))
  }

  function Lines(turns: seq<Turn>): (ls: seq<string>)
    ensures |ls| == |turns|
    ensures forall i :: 0 <= i < |turns| ==> ls[i] == LineOf(turns[i])
  {
    seq(|turns|, i requires 0 <= i < |turns| => LineOf(turns[i]))
  }

  lemma {:induction false} RenderIsJoin(turns: seq<Turn>)
    ensures Render(turns) == Join(Lines(turns) + [""], "\n")
  {
    if turns != [] {
      RenderIsJoin(turns[1..]);
      assert Lines(turns) + [""] == [LineOf(turns[0])] + (Lines(turns[1..]) + [""]);
      JoinCons(LineOf(turns[0]), Lines(turns[1..]) + [""], "\n");
    }
  }

  lemma ParseLineOf(t: Turn)
    ensures ParseLine(LineOf(t)) == Normalize(t)
  {
    var line := LineOf(t);
    if t.role == "user" {
      assert line[..6] == "User: ";
      assert line[6..] == t.message;
    } else {
      assert line[..6] != "User: " by {
        assert line[0] == 'A';
      }
      assert line[11..] == t.message;
    }
  }

  /**
   As long as no message in the window holds a newline, the memory text can be
   read back into the window's turns, in order, with their speakers and messages.
   */
  lemma MemoryRoundTrip(history: seq<Turn>)
    requires forall i :: 0 <= i < |MemoryWindow(history)| ==> '\n' !in MemoryWindow(history)[i].message
    ensures var w := MemoryWindow(history);
      ParseMemory(MemoryContext(history)) == NormalizeAll(w)
  {
    ParseRendered(MemoryWindow(history));
  }

  lemma ParseRendered(w: seq<Turn>)
    requires forall i :: 0 <= i < |w| ==> '\n' !in w[i].message
    ensures ParseMemory(Render(w)) == NormalizeAll(w)
  {
    RenderSplitsIntoLines(w);
    var lines := Split(Render(w), "\n");
    var parsed := ParseMemory(Render(w));
    assert |parsed| == |w|;
    forall i | 0 <= i < |w| ensures parsed[i] == Normalize(w[i]) {
      assert lines[i] == LineOf(w[i]);
      ParseLineOf(w[i]);
    }
  }

  /** The memory text splits at its newlines into the lines of the turns and a final empty piece. */
  lemma RenderSplitsIntoLines(w: seq<Turn>)
    requires forall i :: 0 <= i < |w| ==> '\n' !in w[i].message
    ensures Split(Render(w), "\n") == Lines(w) + [""]
  {
    RenderIsJoin(w);
    LinesLackNewline(w);
    SplitJoin(Lines(w) + [""], "\n");
  }

  lemma LinesLackNewline(w: seq<Turn>)
    requires forall i :: 0 <= i < |w| ==> '\n' !in w[i].message
    ensures forall i :: 0 <= i < |Lines(w) + [""]| ==> '\n' !in (Lines(w) + [""])[i]
  {
    var parts := Lines(w) + [""];
    forall i | 0 <= i < |parts| ensures '\n' !in parts[i] {
      if i < |w| {
        assert parts[i] == Speaker(w[i]) + w[i].message;
      }
    }
  }

  /** `"\n".join(chunk['chunk'] for chunk in retrieved_chunks[:3])`: the knowledge context of a prompt. */
  function RetrievedContext(retrieved: seq<Record>): string {
    Join(ChunkTexts(PyTake(retrieved, 3)), "\n")
  }

  /** Only the three best-ranked records reach the prompt, and the first of them starts it. */
  lemma RetrievedContextUsesTopThree(retrieved: seq<Record>, more: seq<Record>)
    requires |retrieved| >= 3
    ensures RetrievedContext(retrieved + more) == RetrievedContext(retrieved)
    ensures RetrievedContext(retrieved)[..|retrieved[0].chunk|] == retrieved[0].chunk
  {
    assert (retrieved + more)[..3] == retrieved[..3];
    var cs := ChunkTexts(retrieved[..3]);
    assert cs == [cs[0]] + cs[1..];
    JoinCons(cs[0], cs[1..], "\n");
  }
}
