/**
 The string handling of `loader.py`: the YouTube video id cut out of a URL, the
 transcript and PDF texts joined from their pieces, and the bracketed messages a
 failed transcript fetch is turned into. Fetching the transcript and reading
 the PDF are parameters: their results.
 */
module Loader {
  import opened Strings

  /** `url.split("v=")[-1].split("&")[0]`. */
  function VideoId(url: string): (id: string)
    ensures '&' !in id
    ensures !Contains(id, "v=")
  {
    var tail := Last(Split(url, "v="));
    var id := Split(tail, "&")[0];
    VideoIdFacts(url);
    id
  }

  lemma VideoIdFacts(url: string)
    ensures var tail := Last(Split(url, "v="));
      var id := Split(tail, "&")[0];
      '&' !in id && !Contains(id, "v=")
  {
    var parts := Split(url, "v=");
    var tail := Last(parts);
    var cut := Split(tail, "&");
    SplitPiecesLackSeparator(url, "v=");
    assert !Contains(tail, "v=") by {
      assert tail == parts[|parts| - 1];
    }
    SplitPiecesLackSeparator(tail, "&");
    ContainsChar(cut[0], '&');
    SplitFirstIsPrefix(tail, "&");
    SliceLacks(tail, "v=", 0, |cut[0]|);
    assert tail[0..|cut[0]|] == cut[0];
  }

  /** The part of the URL after the last `v=`, or all of it when there is none. */
  function AfterLastMarker(url: string): string {
    Last(Split(url, "v="))
  }

  /**
   The id is taken from the part of the URL after the last `v=` (the whole URL when
   there is none): a suffix of the URL holding no `v=`, directly after a `v=`
   unless it is the whole URL.
   */
  lemma AfterLastMarkerIsSuffix(url: string)
    ensures var tail := AfterLastMarker(url);
      && |tail| <= |url| && tail == url[|url| - |tail|..]
      && !Contains(tail, "v=")
      && (|tail| < |url| ==> OccursAt(url, "v=", |url| - |tail| - 2))
  {
    var parts := Split(url, "v=");
    SplitLastIsSuffix(url, "v=");
    SplitPiecesLackSeparator(url, "v=");
    assert Last(parts) == parts[|parts| - 1];
    if |Last(parts)| < |url| {
      SplitLastFollowsSeparator(url, "v=");
    }
  }

  /** The id is the beginning of that part, up to its first `&`. */
  lemma VideoIdCutsAtAmpersand(url: string)
    ensures var tail := AfterLastMarker(url);
      && |VideoId(url)| <= |tail| && VideoId(url) == tail[..|VideoId(url)|]
      && (|VideoId(url)| < |tail| ==> tail[|VideoId(url)|] == '&')
  {
    var tail := AfterLastMarker(url);
    SplitFirstIsPrefix(tail, "&");
    var id := VideoId(url);
    if |id| < |tail| {
      assert tail[|id|..|id| + 1] == "&";
    }
  }

  /**
   For a watch URL `prefix + "v=" + id + params`, where the id holds no `&`, the
   parameters are empty or start with `&`, and no later `v=` follows, the id is
   extracted exactly.
   */
  lemma VideoIdOfWatchUrl(prefix: string, id: string, params: string)
    requires '&' !in id && (params == [] || params[0] == '&')
    requires !Contains(id + params, "v=")
    ensures VideoId(prefix + "v=" + id + params) == id
  {
    var url := prefix + "v=" + id + params;
    var tail := id + params;
    assert "v="[0] !in "v="[1..];
    assert url == prefix + "v=" + tail;
    LastPieceAfterLastSeparator(prefix, "v=", tail);
    FirstCut(id, params);
  }

  /** Cutting at the first `&` keeps exactly the part before it. */
  lemma FirstCut(id: string, params: string)
    requires '&' !in id && (params == [] || params[0] == '&')
    ensures Split(id + params, "&")[0] == id
  {
    var tail := id + params;
    if params == [] {
      assert tail == id;
      ContainsChar(id, '&');
      SplitWithoutSeparator(id, "&");
    } else {
      assert tail[|id|..|id| + 1] == "&";
      assert tail[0..|id|] == id;
      NoOccurrenceWithoutFirstChar(tail, "&", 0, |id|);
      FindLocates(tail, "&", 0, |id|);
      SplitStep(tail, "&", |id|);
      assert tail[..|id|] == id;
    }
  }

  /** How `YouTubeTranscriptApi.get_transcript(video_id)` ended. */
  datatype TranscriptFetch =
    | Fetched(texts: seq<string>)   // the `"text"` of each transcript entry, in order
    | Disabled                      // TranscriptsDisabled
    | Unavailable                   // VideoUnavailable
    | Failed(message: string)       // any other exception, with `str(e)`

  const DisabledText := "[Error: Transcripts are disabled for this video]"

  const UnavailableText := "[Error: Video is unavailable]"

  const FailurePrefix := "[Error loading transcript] "

  /** `" ".join(...)` of the entry texts. */
  function TranscriptText(texts: seq<string>): string {
    Join(texts, " ")
  }

  /**
   `load_yt_transcript(url)` with the fetch as a parameter: the joined entry texts,
   or the fixed message for each kind of failure.
   */
  function LoadTranscript(url: string, fetch: string -> TranscriptFetch): (text: string)
    ensures fetch(VideoId(url)).Fetched? ==> text == Join(fetch(VideoId(url)).texts, " ")
    ensures fetch(VideoId(url)).Disabled? ==> text == DisabledText
    ensures fetch(VideoId(url)).Unavailable? ==> text == UnavailableText
    ensures fetch(VideoId(url)).Failed? ==>
      |text| >= |FailurePrefix| && text[..|FailurePrefix|] == FailurePrefix
      && text[|FailurePrefix|..] == fetch(VideoId(url)).message
  {
    match fetch(VideoId(url))
    case Fetched(texts) => TranscriptText(texts)
    case Disabled => DisabledText
    case Unavailable => UnavailableText
    case Failed(message) => FailurePrefix + message
  }

  /**
   Every entry text appears in the transcript, unchanged and in order, each one
   space after the previous; and entry texts without spaces can be split back out.
   */
  lemma TranscriptKeepsEntries(texts: seq<string>, k: nat)
    requires k < |texts|
    ensures var t := TranscriptText(texts);
      JoinOffset(texts, " ", k) + |texts[k]| <= |t|
      && t[JoinOffset(texts, " ", k)..JoinOffset(texts, " ", k) + |texts[k]|] == texts[k]
    ensures (forall i :: 0 <= i < |texts| ==> ' ' !in texts[i]) ==> Split(TranscriptText(texts), " ") == texts
  {
    JoinHoldsParts(texts, " ", k);
    if forall i :: 0 <= i < |texts| ==> ' ' !in texts[i] {
      SplitJoin(texts, " ");
    }
  }

  /** `"\n".join([page.extract_text() for page in pdf.pages])`. */
  function PdfText(pages: seq<string>): string {
    Join(pages, "\n")
  }

  /**
   Every page text appears in the document text, unchanged and in page order, one
   newline after the previous page; single-line pages can be split back out.
   */
  lemma PdfKeepsPages(pages: seq<string>, k: nat)
    requires k < |pages|
    ensures var t := PdfText(pages);
      JoinOffset(pages, "\n", k) + |pages[k]| <= |t|
      && t[JoinOffset(pages, "\n", k)..JoinOffset(pages, "\n", k) + |pages[k]|] == pages[k]
    ensures (forall i :: 0 <= i < |pages| ==> '\n' !in pages[i]) ==> Split(PdfText(pages), "\n") == pages
  {
    JoinHoldsParts(pages, "\n", k);
    if forall i :: 0 <= i < |pages| ==> '\n' !in pages[i] {
      SplitJoin(pages, "\n");
    }
  }

  /** The three failure messages can be told apart, whatever the exception's text. */
  lemma FailureMessagesDistinct(message: string)
    ensures DisabledText != UnavailableText
    ensures FailurePrefix + message != DisabledText && FailurePrefix + message != UnavailableText
  {
    assert (FailurePrefix + message)[6] == ' ';
    assert DisabledText[6] == ':' && UnavailableText[6] == ':';
    assert DisabledText[8] != UnavailableText[8];
  }
}
