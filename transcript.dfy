/**
 * `generar_transcripcion`: one run of the downsub.com session for one video.
 * GET the landing page, cut the CSRF token out of its HTML, POST the
 * extraction request with it, read the transcript location from the JSON
 * reply, GET that location and normalise the text. Every failure, and every
 * exception, ends the run with no transcript.
 *
 * The HTTP session is replaced by the replies it would give: `landing` for
 * the first GET, `extract(token, videoUrl)` for the POST and `fetch(location)`
 * for the last GET.
 */
module Transcript {
  import opened Wrappers
  import opened PyText
  import opened Normalizer

  /** The text searched for in the landing page: `name="_token" value="`, 21 characters. */
  const TokenMarker := "name=\"_token\" value=\""
  /** What the source adds to the marker's index; one less than the marker's length. */
  const MarkerOffset := 20

  // ---------------------------------------------------------------------------
  // CSRF token
  // ---------------------------------------------------------------------------

  /** Lines 174-176: `content[find(marker) + 20 : content.find('"', that)]`. */
  function CsrfToken(content: string): string
  {
    var tokenStart := Find(content, TokenMarker, 0) + MarkerOffset;
    var tokenEnd := Find(content, "\"", tokenStart);
    Slice(content, tokenStart, tokenEnd)
  }

  lemma QuoteAt(s: string, k: int)
    requires OccursAt(s, "\"", k)
    ensures s[k] == '"'
  {
    assert s[k..k + 1][0] == s[k];
  }

  lemma FindAt(s: string, sub: string, start: nat)
    requires OccursAt(s, sub, start)
    ensures Find(s, sub, start) == start
  {
  }

  /**
   * When the marker is in the page, the token slice starts on the marker's own
   * closing quote, which is also where the search for the closing quote stops:
   * the token is always empty.
   */
  lemma MarkerGivesEmptyToken(content: string)
    requires Contains(content, TokenMarker)
    ensures CsrfToken(content) == ""
  {
    var p := Find(content, TokenMarker, 0);
    assert content[p..p + |TokenMarker|] == TokenMarker;
    assert content[p + MarkerOffset] == TokenMarker[MarkerOffset] == '"';
    assert OccursAt(content, "\"", p + MarkerOffset) by {
      assert content[p + MarkerOffset..p + MarkerOffset + 1] == [content[p + MarkerOffset]];
    }
    FindAt(content, "\"", p + MarkerOffset);
  }

  /** Without the marker the slice starts at index 19 and ends at the first '"' from there on. */
  lemma NoMarkerQuotedToken(content: string, j: nat)
    requires !Contains(content, TokenMarker)
    requires 19 <= j < |content| && content[j] == '"'
    requires forall k :: 19 <= k < j ==> content[k] != '"'
    ensures CsrfToken(content) == content[19..j]
  {
    assert Find(content, TokenMarker, 0) == -1;
    assert OccursAt(content, "\"", j) by {
      assert content[j..j + 1] == [content[j]];
    }
    forall k | 19 <= k < j ensures !OccursAt(content, "\"", k) {
      if OccursAt(content, "\"", k) {
        QuoteAt(content, k);
      }
    }
    var tokenEnd := Find(content, "\"", 19);
    assert tokenEnd == j;
  }

  /**
   * Without the marker and without a '"' from index 19 on, `find` gives -1 and
   * the slice `content[19:-1]` drops the page's last character.
   */
  lemma NoMarkerUnquotedToken(content: string)
    requires !Contains(content, TokenMarker)
    requires forall k :: 19 <= k < |content| ==> content[k] != '"'
    ensures CsrfToken(content) == if |content| > 19 then content[19..|content| - 1] else ""
  {
    assert Find(content, TokenMarker, 0) == -1;
    var tokenEnd := Find(content, "\"", 19);
    if tokenEnd != -1 {
      QuoteAt(content, tokenEnd);
    }
  }

  // ---------------------------------------------------------------------------
  // The session
  // ---------------------------------------------------------------------------

  /** The outcome of a GET through the session. */
  datatype Reply = Raised | Reply(ok: bool, text: string)

  /** One element of the `data` list of the extraction reply. */
  datatype Entry = Entry(url: Option<string>)

  /** The decoded JSON of the extraction reply: `Unreadable` when `.json()` or the lookups on it raise. */
  datatype Body = Unreadable | Body(data: Option<seq<Entry>>)

  /** The outcome of the extraction POST. */
  datatype ExtractReply = ExtractRaised | ExtractReply(ok: bool, body: Body)

  /** The requests the session sends. */
  datatype Call = GetLanding | PostExtract(token: string, videoUrl: string) | GetTranscript(location: string)

  /** The transcript (or `None`) and the requests sent to get it, in order. */
  datatype Attempt = Attempt(transcript: Option<string>, calls: seq<Call>)

  /** Lines 205-207: the transcript location, when `data` is a non-empty list whose first entry has a non-empty `url`. */
  function Location(body: Body): Option<string>
  {
    match body
    case Unreadable => None
    case Body(data) =>
      if data.None? || |data.value| == 0 then None
      else
        var url := data.value[0].url;
        if url.Some? && url.value != "" then url else None
  }

  /** Lines 162-219: the whole session, given the replies it would receive. */
  function Acquire(videoUrl: string, landing: Reply, extract: (string, string) -> ExtractReply,
                   fetch: string -> Reply, unescape: string -> string): Attempt
  {
    if landing.Raised? || !landing.ok then Attempt(None, [GetLanding])
    else
      var token := CsrfToken(landing.text);
      if token == "" then Attempt(None, [GetLanding])
      else
        var posted := [GetLanding, PostExtract(token, videoUrl)];
        match extract(token, videoUrl)
        case ExtractRaised => Attempt(None, posted)
        case ExtractReply(ok, body) =>
          if !ok then Attempt(None, posted)
          else
            match Location(body)
            case None => Attempt(None, posted)
            case Some(location) =>
              var fetched := posted + [GetTranscript(location)];
              match fetch(location)
              case Raised => Attempt(None, fetched)
              case Reply(fetchOk, text) =>
                if fetchOk then Attempt(Some(Normalize(unescape, text)), fetched) else Attempt(None, fetched)
  }

  /** Every step of the state machine succeeded. */
  predicate Succeeds(videoUrl: string, landing: Reply, extract: (string, string) -> ExtractReply, fetch: string -> Reply)
  {
    landing.Reply? && landing.ok && CsrfToken(landing.text) != "" &&
    var reply := extract(CsrfToken(landing.text), videoUrl);
    reply.ExtractReply? && reply.ok && Location(reply.body).Some? &&
    var answer := fetch(Location(reply.body).value);
    answer.Reply? && answer.ok
  }

  /**
   * The requests follow the state machine's order, each one only after the
   * previous step succeeded; a transcript comes back exactly when every step
   * succeeded, and it is the normalised text of the last reply.
   */
  lemma AcquireSpec(videoUrl: string, landing: Reply, extract: (string, string) -> ExtractReply,
                    fetch: string -> Reply, unescape: string -> string)
    ensures var a := Acquire(videoUrl, landing, extract, fetch, unescape);
      && 1 <= |a.calls| <= 3 && a.calls[0] == GetLanding
      && (|a.calls| == 1 <==> landing.Raised? || !landing.ok || CsrfToken(landing.text) == "")
      && (|a.calls| >= 2 ==> a.calls[1] == PostExtract(CsrfToken(landing.text), videoUrl))
      && (|a.calls| == 3 ==> extract(CsrfToken(landing.text), videoUrl).ExtractReply? &&
                             extract(CsrfToken(landing.text), videoUrl).ok &&
                             Some(a.calls[2].location) == Location(extract(CsrfToken(landing.text), videoUrl).body))
      && (a.transcript.Some? <==> Succeeds(videoUrl, landing, extract, fetch))
      && (a.transcript.Some? ==> a.transcript.value == Normalize(unescape, fetch(a.calls[2].location).text))
  {
  }

  /**
   * After a successful extraction POST, the transcript is requested exactly
   * when `data` is a non-empty list whose first entry has a non-empty `url`,
   * and from that url; otherwise the session ends after the POST with no
   * transcript.
   */
  lemma LocationDecidesFetch(videoUrl: string, landing: Reply, extract: (string, string) -> ExtractReply,
                             fetch: string -> Reply, unescape: string -> string, body: Body)
    requires landing.Reply? && landing.ok && CsrfToken(landing.text) != ""
    requires extract(CsrfToken(landing.text), videoUrl) == ExtractReply(true, body)
    ensures var a := Acquire(videoUrl, landing, extract, fetch, unescape);
      && (|a.calls| == 3 <==> body.Body? && body.data.Some? && |body.data.value| > 0 &&
                              body.data.value[0].url.Some? && body.data.value[0].url.value != "")
      && (|a.calls| == 3 ==> a.calls[2] == GetTranscript(body.data.value[0].url.value))
      && (|a.calls| < 3 ==> a == Attempt(None, [GetLanding, PostExtract(CsrfToken(landing.text), videoUrl)]))
  {
  }

  /**
   * A landing page that does hold the token field never gets past the token
   * step: the off-by-one slice makes the token empty, so no POST is sent and
   * no transcript comes back.
   */
  lemma MarkerPageNeverPosts(videoUrl: string, landing: Reply, extract: (string, string) -> ExtractReply,
                             fetch: string -> Reply, unescape: string -> string)
    requires landing.Reply? && Contains(landing.text, TokenMarker)
    ensures Acquire(videoUrl, landing, extract, fetch, unescape) == Attempt(None, [GetLanding])
  {
    MarkerGivesEmptyToken(landing.text);
  }

  /** The transcript handed back never holds a blank line. */
  lemma TranscriptHasNoBlankLine(videoUrl: string, landing: Reply, extract: (string, string) -> ExtractReply,
                                 fetch: string -> Reply, unescape: string -> string)
    ensures var a := Acquire(videoUrl, landing, extract, fetch, unescape);
      a.transcript.Some? ==> forall l :: l in SplitLines(a.transcript.value) ==> !IsBlank(l)
  {
    var a := Acquire(videoUrl, landing, extract, fetch, unescape);
    if a.transcript.Some? {
      AcquireSpec(videoUrl, landing, extract, fetch, unescape);
      NoBlankOutputLine(unescape(fetch(a.calls[2].location).text));
    }
  }
}
