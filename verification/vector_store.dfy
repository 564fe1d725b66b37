/**
 The vector store of `vector_store.py`: records kept in insertion order beside an
 inner-product index holding one vector per record, the post-processing of a
 search (invalid positions and disallowed sources dropped, stable sort by
 descending score, cut to `k`), the persisted snapshot, and `clean_context`.

 The embedder is a parameter `embed: string -> V` over an abstract vector type,
 and the FAISS search is represented by the list of hits it returned.
 */
module VectorStore {
  import opened Options
  import opened Strings

  /** One stored chunk: `{'chunk': ..., 'source': ...}`. */
  datatype Record = Record(chunk: string, source: string)

  /** One row of a search result: a position into the index (-1 for an empty slot) and its score. */
  datatype Hit = Hit(pos: int, score: int)

  /** The store: `texts` in insertion order, and the index's vectors in the same order. */
  datatype Store<V> = Store(texts: seq<Record>, index: seq<V>)

  /** What is on disk: the index file and the pickled record list. */
  datatype Snapshot<V> = Snapshot(indexFile: seq<V>, dataFile: seq<Record>)

  /** The number of neighbours `query` asks the index for, whatever `k` is. */
  const FetchCount := 10

  /** Vector `i` is the embedding of record `i`'s chunk, for every record, and there are no others. */
  ghost predicate Aligned<V>(s: Store<V>, embed: string -> V) {
    && |s.index| == |s.texts|
    && forall i :: 0 <= i < |s.texts| ==> s.index[i] == embed(s.texts[i].chunk)
  }

  // ---------------------------------------------------------------------------
  // Construction and persistence

  /** A fresh `IndexFlatIP(384)` and an empty record list. */
  function Empty<V>(): (s: Store<V>)
    ensures |s.texts| == 0 && |s.index| == 0
  {
    Store([], [])
  }

  /** `faiss.write_index` and `pickle.dump`, both done at the end of every `add_texts`. */
  function Save<V>(s: Store<V>): Snapshot<V> {
    Snapshot(s.index, s.texts)
  }

  /** `VectorStore.__init__`: reload both files if they exist, otherwise start empty. */
  function Load<V>(saved: Option<Snapshot<V>>): Store<V> {
    match saved
    case None => Empty()
    case Some(snap) => Store(snap.dataFile, snap.indexFile)
  }

  /** Reloading what was saved gives back the same store, so every query answers the same. */
  lemma LoadAfterSave<V>(s: Store<V>, hits: seq<Hit>, k: int, allowed: Option<seq<string>>)
    requires |hits| <= FetchCount
    ensures Load(Some(Save(s))) == s
    ensures Query(Load(Some(Save(s))), hits, k, allowed) == Query(s, hits, k, allowed)
  {
  }

  lemma EmptyIsAligned<V>(embed: string -> V)
    ensures Aligned(Empty<V>(), embed)
  {
  }

  // ---------------------------------------------------------------------------
  // Ingestion

  /**
   `add_texts(docs, source_id)`: one record per doc, in order, all tagged with
   `sourceId`, and one vector per doc appended to the index.
   */
  function AddTexts<V>(s: Store<V>, docs: seq<string>, sourceId: string, embed: string -> V): (r: Store<V>)
    ensures |r.texts| == |s.texts| + |docs|
    ensures r.texts[..|s.texts|] == s.texts
    ensures forall i :: 0 <= i < |docs| ==> r.texts[|s.texts| + i] == Record(docs[i], sourceId)
    ensures |r.index| - |r.texts| == |s.index| - |s.texts|
    ensures r.index[..|s.index|] == s.index
    ensures Aligned(s, embed) ==> Aligned(r, embed)
  {
    var added := seq(|docs|, i requires 0 <= i < |docs| => Record(docs[i], sourceId));
    var vectors := seq(|docs|, i requires 0 <= i < |docs| => embed(docs[i]));
    var r := Store(s.texts + added, s.index + vectors);
    assert Aligned(s, embed) ==> Aligned(r, embed) by {
      if Aligned(s, embed) {
        forall i | 0 <= i < |r.texts| ensures r.index[i] == embed(r.texts[i].chunk) {
          if i >= |s.texts| {
            assert r.texts[i] == added[i - |s.texts|];
          }
        }
      }
    }
    r
  }

  /** Adding no documents changes nothing. */
  lemma AddNothing<V>(s: Store<V>, sourceId: string, embed: string -> V)
    ensures AddTexts(s, [], sourceId, embed) == s
  {
    assert s.texts + [] == s.texts;
    assert s.index + [] == s.index;
  }

  // ---------------------------------------------------------------------------
  // Query post-processing

  /** `list(indices[0])`: the positions of the hits, in search order. */
  function Positions(hits: seq<Hit>): (ps: seq<int>)
    ensures |ps| == |hits|
    ensures forall i :: 0 <= i < |hits| ==> ps[i] == hits[i].pos
  {
    seq(|hits|, i requires 0 <= i < |hits| => hits[i].pos)
  }

  /** `distances[0][list(indices[0]).index(pos)]`: the score of the FIRST hit at `pos`. */
  function FirstScore(hits: seq<Hit>, pos: int): int
    requires pos in Positions(hits)
  {
    if hits[0].pos == pos then hits[0].score
    else
      assert Positions(hits) == [hits[0].pos] + Positions(hits[1..]);
      FirstScore(hits[1..], pos)
  }

  /** When no position repeats, the first-occurrence lookup returns the hit's own score. */
  lemma {:induction false} FirstScoreOfDistinct(hits: seq<Hit>, j: nat)
    requires j < |hits|
    requires forall a, b :: 0 <= a < b < |hits| ==> hits[a].pos != hits[b].pos
    ensures FirstScore(hits, hits[j].pos) == hits[j].score
  {
    if j > 0 {
      assert hits[0].pos != hits[j].pos;
      assert Positions(hits) == [hits[0].pos] + Positions(hits[1..]);
      assert hits[1..][j - 1] == hits[j];
      FirstScoreOfDistinct(hits[1..], j - 1);
    }
  }

  /** The tests the loop in `query` applies to a position before keeping it. */
  predicate Admissible(texts: seq<Record>, allowed: Option<seq<string>>, pos: int) {
    && pos != -1
    && 0 <= pos < |texts|
    && (allowed.None? || texts[pos].source in allowed.value)
  }

  /** The loop of `query` over the first `n` hits: admissible positions, each with its first score. */
  function Collect(texts: seq<Record>, allowed: Option<seq<string>>, hits: seq<Hit>, n: nat): seq<Hit>
    requires n <= |hits|
    decreases n
  {
    if n == 0 then []
    else
      var prev := Collect(texts, allowed, hits, n - 1);
      var p := hits[n - 1].pos;
      assert Positions(hits)[n - 1] == p;
      if Admissible(texts, allowed, p) then prev + [Hit(p, FirstScore(hits, p))] else prev
  }

  /** Every collected entry is admissible, comes from one of the first `n` hits, and there are at most `n`. */
  lemma {:induction false} CollectSound(texts: seq<Record>, allowed: Option<seq<string>>, hits: seq<Hit>, n: nat)
    requires n <= |hits|
    ensures |Collect(texts, allowed, hits, n)| <= n
    ensures forall h :: h in Collect(texts, allowed, hits, n) ==>
      Admissible(texts, allowed, h.pos) && h.pos in Positions(hits[..n])
    decreases n
  {
    if n > 0 {
      CollectSound(texts, allowed, hits, n - 1);
      assert Positions(hits[..n]) == Positions(hits[..n - 1]) + [hits[n - 1].pos];
    }
  }

  /** No admissible hit among the first `n` is lost: its position is collected with its first score. */
  lemma {:induction false} CollectComplete(texts: seq<Record>, allowed: Option<seq<string>>, hits: seq<Hit>, n: nat)
    requires n <= |hits|
    ensures forall j :: 0 <= j < n && Admissible(texts, allowed, hits[j].pos) ==>
      hits[j].pos in Positions(hits) &&
      Hit(hits[j].pos, FirstScore(hits, hits[j].pos)) in Collect(texts, allowed, hits, n)
    decreases n
  {
    if n > 0 {
      CollectComplete(texts, allowed, hits, n - 1);
      assert Positions(hits)[n - 1] == hits[n - 1].pos;
    }
  }

  /** `results.sort(key=lambda x: -x[1])` keeps this: scores never increase along the list. */
  predicate SortedDesc(hs: seq<Hit>) {
    forall i, j :: 0 <= i < j < |hs| ==> hs[i].score >= hs[j].score
  }

  /** The entries of `hs` whose score is `v`, in their order in `hs`. */
  function WithScore(hs: seq<Hit>, v: int): seq<Hit> {
    if hs == [] then []
    else (if hs[0].score == v then [hs[0]] else []) + WithScore(hs[1..], v)
  }

  /** Place `h` in front of the first entry it is not below: before equal scores, so it stays ahead of them. */
  function InsertByScore(h: Hit, hs: seq<Hit>): seq<Hit> {
    if hs == [] then [h]
    else if h.score >= hs[0].score then [h] + hs
    else [hs[0]] + InsertByScore(h, hs[1..])
  }

  /** Python's stable `list.sort` on the negated score, as an insertion sort from the back. */
  function SortByScore(hs: seq<Hit>): seq<Hit> {
    if hs == [] then [] else InsertByScore(hs[0], SortByScore(hs[1..]))
  }

  lemma {:induction false} InsertIsPermutation(h: Hit, hs: seq<Hit>)
    ensures multiset(InsertByScore(h, hs)) == multiset(hs) + multiset{h}
  {
    if hs != [] && h.score < hs[0].score {
      InsertIsPermutation(h, hs[1..]);
      assert hs == [hs[0]] + hs[1..];
    }
  }

  lemma {:induction false} InsertKeepsOrder(h: Hit, hs: seq<Hit>)
    requires SortedDesc(hs)
    ensures SortedDesc(InsertByScore(h, hs))
  {
    if hs == [] {
    } else if h.score >= hs[0].score {
      ConsSorted(h, hs);
    } else {
      InsertKeepsOrder(h, hs[1..]);
      InsertStaysBelow(h, hs[1..], hs[0].score);
      ConsSorted(hs[0], InsertByScore(h, hs[1..]));
    }
  }

  /** Inserting an entry no higher than `b` among entries no higher than `b` keeps every entry no higher than `b`. */
  lemma {:induction false} InsertStaysBelow(h: Hit, hs: seq<Hit>, b: int)
    requires h.score <= b && forall k :: 0 <= k < |hs| ==> hs[k].score <= b
    ensures forall k :: 0 <= k < |InsertByScore(h, hs)| ==> InsertByScore(h, hs)[k].score <= b
  {
    if hs != [] && h.score < hs[0].score {
      InsertStaysBelow(h, hs[1..], b);
      var t := InsertByScore(h, hs[1..]);
      assert forall k :: 1 <= k < |t| + 1 ==> ([hs[0]] + t)[k] == t[k - 1];
    }
  }

  /** An entry no lower than the head of a sorted list can go in front of it. */
  lemma ConsSorted(x: Hit, t: seq<Hit>)
    requires SortedDesc(t) && (t != [] ==> x.score >= t[0].score)
    ensures SortedDesc([x] + t)
  {
    var r := [x] + t;
    forall i, j | 0 <= i < j < |r| ensures r[i].score >= r[j].score {
      assert r[j] == t[j - 1];
      if i > 0 {
        assert r[i] == t[i - 1];
      } else if j > 1 {
        assert t[0].score >= t[j - 1].score;
      }
    }
  }

  lemma {:induction false} InsertIsStable(h: Hit, hs: seq<Hit>, v: int)
    ensures WithScore(InsertByScore(h, hs), v) == WithScore([h] + hs, v)
  {
    if hs != [] && h.score < hs[0].score {
      InsertIsStable(h, hs[1..], v);
      assert ([hs[0]] + InsertByScore(h, hs[1..]))[1..] == InsertByScore(h, hs[1..]);
      assert ([h] + hs[1..])[1..] == hs[1..];
      assert ([h] + hs)[1..] == hs;
    }
  }

  /** The sort orders by descending score and is a permutation. */
  lemma {:induction false} SortOrders(hs: seq<Hit>)
    ensures SortedDesc(SortByScore(hs))
    ensures multiset(SortByScore(hs)) == multiset(hs)
  {
    if hs != [] {
      SortOrders(hs[1..]);
      InsertKeepsOrder(hs[0], SortByScore(hs[1..]));
      InsertIsPermutation(hs[0], SortByScore(hs[1..]));
      assert hs == [hs[0]] + hs[1..];
    }
  }

  /** The sort is stable: the entries of any one score keep their relative order. */
  lemma {:induction false} SortIsStable(hs: seq<Hit>, v: int)
    ensures WithScore(SortByScore(hs), v) == WithScore(hs, v)
  {
    if hs != [] {
      SortIsStable(hs[1..], v);
      InsertIsStable(hs[0], SortByScore(hs[1..]), v);
      assert ([hs[0]] + SortByScore(hs[1..]))[1..] == SortByScore(hs[1..]);
    }
  }

  /** Python's `xs[:k]`, including a negative `k` (which drops that many from the end). */
  function PyTake<T>(xs: seq<T>, k: int): (r: seq<T>)
    ensures k >= 0 ==> |r| == if k < |xs| then k else |xs|
    ensures k < 0 ==> |r| == if |xs| + k > 0 then |xs| + k else 0
    ensures r == xs[..|r|]
  {
    if k >= 0 then (if k < |xs| then xs[..k] else xs)
    else if |xs| + k > 0 then xs[..|xs| + k] else []
  }

  /** The candidates of `query` after filtering and sorting, before the cut to `k`. */
  function Ranked(texts: seq<Record>, hits: seq<Hit>, allowed: Option<seq<string>>): seq<Hit> {
    SortByScore(Collect(texts, allowed, hits, |hits|))
  }

  /**
   Every ranked entry is admissible and comes from the search; scores never increase;
   entries of equal score keep their search order; nothing admissible is missing.
   */
  lemma RankedFacts(texts: seq<Record>, hits: seq<Hit>, allowed: Option<seq<string>>)
    ensures |Ranked(texts, hits, allowed)| <= |hits|
    ensures forall h :: h in Ranked(texts, hits, allowed) ==>
      Admissible(texts, allowed, h.pos) && h.pos in Positions(hits)
    ensures SortedDesc(Ranked(texts, hits, allowed))
    ensures forall v :: WithScore(Ranked(texts, hits, allowed), v) == WithScore(Collect(texts, allowed, hits, |hits|), v)
    ensures forall j :: 0 <= j < |hits| && Admissible(texts, allowed, hits[j].pos) ==>
      exists h :: h in Ranked(texts, hits, allowed) && h.pos == hits[j].pos
  {
    var c := Collect(texts, allowed, hits, |hits|);
    CollectSound(texts, allowed, hits, |hits|);
    CollectComplete(texts, allowed, hits, |hits|);
    SortOrders(c);
    assert hits[..|hits|] == hits;
    assert |SortByScore(c)| == |c| by {
      assert |multiset(SortByScore(c))| == |multiset(c)|;
    }
    forall h | h in SortByScore(c) ensures h in c {
      assert h in multiset(SortByScore(c));
    }
    forall v {
      SortIsStable(c, v);
    }
    forall j | 0 <= j < |hits| && Admissible(texts, allowed, hits[j].pos)
      ensures exists h :: h in SortByScore(c) && h.pos == hits[j].pos
    {
      assert Positions(hits)[j] == hits[j].pos;
      var h := Hit(hits[j].pos, FirstScore(hits, hits[j].pos));
      assert h in multiset(c);
    }
  }

  /**
   `query(query, k, allowed_sources)` given the hits the index returned for the
   query's embedding: the records of the first `k` ranked candidates.
   */
  function Query<V>(s: Store<V>, hits: seq<Hit>, k: int, allowed: Option<seq<string>>): (r: seq<Record>)
    requires |hits| <= FetchCount
    ensures |r| <= |hits| && |r| <= FetchCount
    ensures k >= 0 ==> |r| <= k
    ensures forall i :: 0 <= i < |r| ==> r[i] in s.texts
    ensures allowed.Some? ==> forall i :: 0 <= i < |r| ==> r[i].source in allowed.value
    ensures allowed == Some([]) ==> r == []
    ensures |r| <= |Ranked(s.texts, hits, allowed)|
    ensures k >= 0 ==> |r| == if k < |Ranked(s.texts, hits, allowed)| then k else |Ranked(s.texts, hits, allowed)|
    ensures k < 0 ==> |r| == if |Ranked(s.texts, hits, allowed)| + k > 0 then |Ranked(s.texts, hits, allowed)| + k else 0
    ensures forall i :: 0 <= i < |r| ==>
      0 <= Ranked(s.texts, hits, allowed)[i].pos < |s.texts| &&
      r[i] == s.texts[Ranked(s.texts, hits, allowed)[i].pos]
  {
    var ranked := Ranked(s.texts, hits, allowed);
    RankedAdmissible(s.texts, hits, allowed);
    var top := PyTake(ranked, k);
    assert forall i :: 0 <= i < |top| ==> top[i] == ranked[i];
    seq(|top|, i requires 0 <= i < |top| => s.texts[top[i].pos])
  }

  /** `RankedFacts` by index: no more entries than hits, each of them admissible. */
  lemma RankedAdmissible(texts: seq<Record>, hits: seq<Hit>, allowed: Option<seq<string>>)
    ensures |Ranked(texts, hits, allowed)| <= |hits|
    ensures forall i :: 0 <= i < |Ranked(texts, hits, allowed)| ==> Admissible(texts, allowed, Ranked(texts, hits, allowed)[i].pos)
    ensures allowed == Some([]) ==> Ranked(texts, hits, allowed) == []
  {
    RankedFacts(texts, hits, allowed);
    var ranked := Ranked(texts, hits, allowed);
    assert forall i :: 0 <= i < |ranked| ==> ranked[i] in ranked;
    if ranked != [] {
      assert Admissible(texts, allowed, ranked[0].pos);
    }
  }

  /**
   With no source filter, no candidate is dropped for its source: every in-range
   position of the search reaches the ranking, and with `k` large enough the result.
   */
  lemma NoFilterKeepsEveryValidHit<V>(s: Store<V>, hits: seq<Hit>, k: int)
    requires |hits| <= FetchCount
    ensures forall j :: 0 <= j < |hits| && 0 <= hits[j].pos < |s.texts| ==>
      exists h :: h in Ranked(s.texts, hits, None) && h.pos == hits[j].pos
    ensures k >= |Ranked(s.texts, hits, None)| ==> |Query(s, hits, k, None)| == |Ranked(s.texts, hits, None)|
  {
    RankedFacts(s.texts, hits, None);
  }

  /** Position -1 and positions outside the store never come back. */
  lemma InvalidPositionsDropped(texts: seq<Record>, hits: seq<Hit>, allowed: Option<seq<string>>)
    ensures forall h :: h in Ranked(texts, hits, allowed) ==> h.pos != -1 && 0 <= h.pos < |texts|
  {
    RankedFacts(texts, hits, allowed);
  }

  // ---------------------------------------------------------------------------
  // clean_context

  /** No two neighbouring characters are both whitespace. */
  predicate NoDoubleSpace(s: string) {
    forall i :: 0 <= i < |s| - 1 ==> !(IsSpace(s[i]) && IsSpace(s[i + 1]))
  }

  /** No `[` is followed, anywhere later, by a `]`. */
  predicate NoBracketPair(s: string) {
    forall i, j :: 0 <= i < j < |s| && s[i] == '[' ==> s[j] != ']'
  }

  /** The text with every whitespace character deleted. */
  function NonSpace(s: string): string {
    if s == [] then []
    else (if IsSpace(s[0]) then [] else [s[0]]) + NonSpace(s[1..])
  }

  /** `re.sub(r"\s+", " ", s)`: every maximal whitespace run becomes one space. */
  function CollapseSpaces(s: string): (r: string)
    ensures r == [] <==> s == []
    ensures r != [] ==> (IsSpace(r[0]) <==> IsSpace(s[0]))
    decreases |s|
  {
    if s == [] then []
    else if IsSpace(s[0]) then [' '] + CollapseSpaces(s[LeadingSpaces(s)..])
    else [s[0]] + CollapseSpaces(s[1..])
  }

  /** Index of the first `]` or `\n` in `s`, or `|s|`: where `\[.*?\]` (no DOTALL) stops looking. */
  function CloseOrBreak(s: string): (n: nat)
    ensures n <= |s|
    ensures n < |s| ==> s[n] == ']' || s[n] == '\n'
    ensures LacksBefore(s, ']', n) && LacksBefore(s, '\n', n)
  {
    if s == [] || s[0] == ']' || s[0] == '\n' then 0 else 1 + CloseOrBreak(s[1..])
  }

  /** Where the next match of `\[.*?\]` may start: the first `[`, or `|s|`. */
  function BracketOpen(s: string): (i: nat)
    ensures i <= |s|
    ensures LacksBefore(s, '[', i)
    ensures i < |s| ==> s[i] == '['
  {
    IndexOfChar(s, '[')
  }

  /** Where the match starting at the `[` at `i` would end: the next `]` or newline after it, or `|s|`. */
  function BracketClose(s: string, i: nat): (j: nat)
    requires i < |s|
    ensures i < j <= |s|
    ensures j < |s| ==> s[j] == ']' || s[j] == '\n'
    ensures LacksIn(s, ']', i + 1, j) && LacksIn(s, '\n', i + 1, j)
  {
    var n := CloseOrBreak(s[i + 1..]);
    assert s[i + 1..][..n] == s[i + 1..i + 1 + n];
    i + 1 + n
  }

  /** What one step of the deletion does: keep `s[..keep]`, then go on with `s[resume..]`. */
  datatype Cut = NoCut | Cut(keep: nat, resume: nat)

  /**
   The next step of `re.sub(r"\[.*?\]", "", s)`, which deletes each `[...]` whose body
   has no newline. A `[` whose next `]`-or-newline is a newline cannot start a
   match, and neither can any `[` before that newline, so everything up to that
   newline is kept and scanning resumes after it.
   */
  function NextCut(s: string): (c: Cut)
    ensures c.Cut? ==> c.keep <= c.resume <= |s| && 0 < c.resume
  {
    var i := BracketOpen(s);
    if i == |s| then NoCut
    else
      var j := BracketClose(s, i);
      if j == |s| then NoCut
      else if s[j] == '\n' then Cut(j + 1, j + 1)
      else Cut(i, j + 1)
  }

  /** `re.sub(r"\[.*?\]", "", s)`. */
  function RemoveBrackets(s: string): string
    decreases |s|
  {
    match NextCut(s)
    case NoCut => s
    case Cut(keep, resume) => s[..keep] + RemoveBrackets(s[resume..])
  }

  /** `clean_context(text)`. */
  function CleanContext(text: string): (r: string)
    ensures IsStripped(r)
    ensures NoDoubleSpace(r)
    ensures '\n' !in text ==> NoBracketPair(r)
    ensures '[' !in text ==> NonSpace(r) == NonSpace(text)
  {
    CleanContextFacts(text);
    Strip(CollapseSpaces(RemoveBrackets(text)))
  }

  lemma CleanContextFacts(text: string)
    ensures var r := Strip(CollapseSpaces(RemoveBrackets(text)));
      && NoDoubleSpace(r)
      && ('\n' !in text ==> NoBracketPair(r))
      && ('[' !in text ==> NonSpace(r) == NonSpace(text))
  {
    var noBrackets := RemoveBrackets(text);
    CollapseHasNoDoubleSpace(noBrackets);
    StripKeepsNoDoubleSpace(CollapseSpaces(noBrackets));
    if '\n' !in text {
      RemoveBracketsNoPair(text);
      CollapseKeepsNoBracketPair(noBrackets);
      StripKeepsNoBracketPair(CollapseSpaces(noBrackets));
    }
    if '[' !in text {
      RemoveBracketsWithoutOpen(text);
      CollapseKeepsNonSpace(noBrackets);
      StripKeepsNonSpace(CollapseSpaces(noBrackets));
    }
  }

  lemma StripKeepsNoDoubleSpace(s: string)
    requires NoDoubleSpace(s)
    ensures NoDoubleSpace(Strip(s))
  {
    var a := LeadingSpaces(s);
    NoDoubleSpaceSlice(s, a, a + |Strip(s)|);
  }

  lemma StripKeepsNoBracketPair(s: string)
    requires NoBracketPair(s)
    ensures NoBracketPair(Strip(s))
  {
    var a := LeadingSpaces(s);
    NoBracketPairSlice(s, a, a + |Strip(s)|);
  }

  lemma RemoveBracketsWithoutOpen(s: string)
    requires '[' !in s
    ensures RemoveBrackets(s) == s
  {
  }

  lemma NoDoubleSpaceSlice(s: string, a: nat, b: nat)
    requires a <= b <= |s| && NoDoubleSpace(s)
    ensures NoDoubleSpace(s[a..b])
  {
    forall i | 0 <= i < b - a - 1 ensures !(IsSpace(s[a..b][i]) && IsSpace(s[a..b][i + 1])) {
      assert s[a..b][i] == s[a + i] && s[a..b][i + 1] == s[a + i + 1];
    }
  }

  lemma NoBracketPairSlice(s: string, a: nat, b: nat)
    requires a <= b <= |s| && NoBracketPair(s)
    ensures NoBracketPair(s[a..b])
  {
    forall i, j | 0 <= i < j < b - a && s[a..b][i] == '[' ensures s[a..b][j] != ']' {
      assert s[a..b][i] == s[a + i] && s[a..b][j] == s[a + j];
    }
  }

  /** Whitespace collapsing leaves no two whitespace characters side by side. */
  lemma {:induction false} CollapseHasNoDoubleSpace(s: string)
    ensures NoDoubleSpace(CollapseSpaces(s))
    decreases |s|
  {
    if s != [] {
      var rest := if IsSpace(s[0]) then s[LeadingSpaces(s)..] else s[1..];
      CollapseHasNoDoubleSpace(rest);
      var head := if IsSpace(s[0]) then ' ' else s[0];
      var t := CollapseSpaces(rest);
      assert CollapseSpaces(s) == [head] + t;
      assert IsSpace(head) && t != [] ==> !IsSpace(t[0]);
      forall i | 0 <= i < |t| ensures ([head] + t)[i + 1] == t[i] {
      }
    }
  }

  lemma NoBracketPairCons(c: char, t: string)
    requires NoBracketPair(t)
    requires c == '[' ==> ']' !in t
    ensures NoBracketPair([c] + t)
  {
    var s := [c] + t;
    forall i, j | 0 <= i < j < |s| && s[i] == '[' ensures s[j] != ']' {
      assert s[j] == t[j - 1];
      if i > 0 {
        assert s[i] == t[i - 1];
      }
    }
  }

  lemma NoBracketPairAppend(a: string, b: string)
    requires '[' !in a && NoBracketPair(b)
    ensures NoBracketPair(a + b)
  {
    var s := a + b;
    forall i, j | 0 <= i < j < |s| && s[i] == '[' ensures s[j] != ']' {
      if i >= |a| {
        assert s[i] == b[i - |a|] && s[j] == b[j - |a|];
      }
    }
  }

  /** Collapsing only ever writes a space or a character of the input. */
  lemma {:induction false} CollapseChars(s: string, c: char)
    requires c in CollapseSpaces(s)
    ensures c == ' ' || c in s
    decreases |s|
  {
    if s != [] {
      var rest := if IsSpace(s[0]) then s[LeadingSpaces(s)..] else s[1..];
      var head := if IsSpace(s[0]) then ' ' else s[0];
      assert CollapseSpaces(s) == [head] + CollapseSpaces(rest);
      if c != head {
        CollapseChars(rest, c);
      }
    }
  }

  lemma {:induction false} CollapseKeepsNoBracketPair(s: string)
    requires NoBracketPair(s)
    ensures NoBracketPair(CollapseSpaces(s))
    decreases |s|
  {
    if s != [] {
      var rest := if IsSpace(s[0]) then s[LeadingSpaces(s)..] else s[1..];
      NoBracketPairSlice(s, |s| - |rest|, |s|);
      assert s[|s| - |rest|..|s|] == rest;
      CollapseKeepsNoBracketPair(rest);
      var head := if IsSpace(s[0]) then ' ' else s[0];
      if head == '[' {
        if ']' in CollapseSpaces(rest) {
          CollapseChars(rest, ']');
        }
      }
      NoBracketPairCons(head, CollapseSpaces(rest));
    }
  }

  /** On text without newlines, no `[` survives with a `]` after it. */
  lemma {:induction false} RemoveBracketsNoPair(s: string)
    requires '\n' !in s
    ensures NoBracketPair(RemoveBrackets(s))
    decreases |s|
  {
    if NextCut(s) == NoCut {
      RemoveBracketsUncut(s);
      UncutHasNoPair(s);
    } else {
      var i := BracketOpen(s);
      var j := BracketClose(s, i);
      assert j < |s| && s[j] == ']' by {
        assert s[j] != '\n';
      }
      var rest := s[j + 1..];
      RemoveBracketsAt(s, i, j);
      CharNotInSlice(s, '\n', j + 1, |s|);
      assert s[j + 1..|s|] == rest;
      RemoveBracketsNoPair(rest);
      NoBracketPairAppend(s[..i], RemoveBrackets(rest));
    }
  }

  /** A text in which the scan finds nothing to delete is left as it is. */
  lemma RemoveBracketsUncut(s: string)
    requires NextCut(s) == NoCut
    ensures RemoveBrackets(s) == s
  {
  }

  /** Without newlines, the scan finds nothing to delete only in a text without bracket pairs. */
  lemma UncutHasNoPair(s: string)
    requires '\n' !in s && NextCut(s) == NoCut
    ensures NoBracketPair(s)
  {
    var i := BracketOpen(s);
    if i == |s| {
      assert s[..i] == s;
      NoPairWithoutOpen(s);
    } else {
      var j := BracketClose(s, i);
      forall k | 0 <= k < |s| ensures s[k] != '\n' {
      }
      assert s[i + 1..j] == s[i + 1..];
      NoPairWhenUnclosed(s, i);
    }
  }

  /** One step of the deletion: a `[...]` on one line is cut out, and the scan resumes after it. */
  lemma RemoveBracketsAt(s: string, i: nat, j: nat)
    requires i == BracketOpen(s) < |s|
    requires j == BracketClose(s, i) < |s| && s[j] == ']'
    ensures RemoveBrackets(s) == s[..i] + RemoveBrackets(s[j + 1..])
  {
    CutAt(s, i, j);
    RemoveBracketsStep(s, i, j + 1);
  }

  lemma CutAt(s: string, i: nat, j: nat)
    requires i == BracketOpen(s) < |s|
    requires j == BracketClose(s, i) < |s| && s[j] == ']'
    ensures NextCut(s) == Cut(i, j + 1)
  {
  }

  lemma RemoveBracketsStep(s: string, keep: nat, resume: nat)
    requires NextCut(s) == Cut(keep, resume)
    ensures RemoveBrackets(s) == s[..keep] + RemoveBrackets(s[resume..])
  {
  }

  lemma NoPairWithoutOpen(s: string)
    requires '[' !in s
    ensures NoBracketPair(s)
  {
  }

  /** A text whose only `[` are at or after `i` and which has no `]` after `i` holds no bracket pair. */
  lemma NoPairWhenUnclosed(s: string, i: nat)
    requires i < |s| && '[' !in s[..i] && ']' !in s[i + 1..]
    ensures NoBracketPair(s)
  {
    forall a | 0 <= a < i ensures s[a] != '[' {
      assert s[..i][a] == s[a];
    }
    forall b | i < b < |s| ensures s[b] != ']' {
      assert s[i + 1..][b - i - 1] == s[b];
    }
  }

  lemma {:induction false} NonSpaceAppend(a: string, b: string)
    ensures NonSpace(a + b) == NonSpace(a) + NonSpace(b)
  {
    if a == [] {
      assert a + b == b;
    } else {
      assert (a + b)[0] == a[0];
      assert (a + b)[1..] == a[1..] + b;
      NonSpaceAppend(a[1..], b);
    }
  }

  lemma {:induction false} NonSpaceOfSpaces(s: string)
    requires AllSpace(s)
    ensures NonSpace(s) == []
  {
    if s != [] {
      NonSpaceOfSpaces(s[1..]);
    }
  }

  /** Collapsing changes whitespace only: the non-whitespace text is the same. */
  lemma {:induction false} CollapseKeepsNonSpace(s: string)
    ensures NonSpace(CollapseSpaces(s)) == NonSpace(s)
    decreases |s|
  {
    if s != [] {
      if IsSpace(s[0]) {
        var n := LeadingSpaces(s);
        CollapseKeepsNonSpace(s[n..]);
        NonSpaceAppend([' '], CollapseSpaces(s[n..]));
        assert s == s[..n] + s[n..];
        NonSpaceAppend(s[..n], s[n..]);
        NonSpaceOfSpaces(s[..n]);
      } else {
        CollapseKeepsNonSpace(s[1..]);
        NonSpaceAppend([s[0]], CollapseSpaces(s[1..]));
      }
    }
  }

  /** Stripping removes whitespace only. */
  lemma StripKeepsNonSpace(s: string)
    ensures NonSpace(Strip(s)) == NonSpace(s)
  {
    var a := LeadingSpaces(s);
    var r := Strip(s);
    SliceInThree(s, a, a + |r|);
    NonSpaceBetweenSpaces(s[..a], r, s[a + |r|..]);
  }

  lemma SliceInThree(s: string, a: nat, b: nat)
    requires a <= b <= |s|
    ensures s == s[..a] + s[a..b] + s[b..]
  {
  }

  lemma NonSpaceBetweenSpaces(x: string, r: string, z: string)
    requires AllSpace(x) && AllSpace(z)
    ensures NonSpace(x + r + z) == NonSpace(r)
  {
    NonSpaceAppend(x + r, z);
    NonSpaceAppend(x, r);
    NonSpaceOfSpaces(x);
    NonSpaceOfSpaces(z);
  }
}
