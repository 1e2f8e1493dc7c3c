/**
 * The processing part of `main`: check the form fields, enumerate the
 * channel's Shorts, keep the first `maxShorts` of them and build one table row
 * per Short with its transcript or a placeholder.
 *
 * `transcriptOf(url)` stands for the (cached) `generar_transcripcion(url)`:
 * `None` when no transcript could be produced.
 */
module Pipeline {
  import opened Wrappers
  import opened PyText
  import opened Enumerator

  /** One row of `results_df`: 'Video ID', 'Título', 'URL', 'Transcripción'. */
  datatype Row = Row(videoId: string, title: string, url: string, transcription: string)

  /** How the run ended: the two early returns of lines 277 and 284, or the full table. */
  datatype Status = MissingInput | NoShorts | Completed

  /** The text put in place of a missing or empty transcript. */
  const Placeholder := "No se pudo generar la transcripci\U{F3}n"

  /** `transcript if transcript else 'No se pudo generar la transcripción'`. */
  function Transcription(transcript: Option<string>): string
  {
    if transcript.Some? && transcript.value != "" then transcript.value else Placeholder
  }

  function Min(a: int, b: int): int
  {
    if a <= b then a else b
  }

  /** Lines 274-309, from the input check to the last appended row. */
  method Run(apiKey: string, channelId: string, maxShorts: int, pages: seq<Page>,
             transcriptOf: string -> Option<string>) returns (status: Status, rows: seq<Row>)
    ensures status == MissingInput <==> apiKey == "" || channelId == ""
    ensures status == NoShorts <==> apiKey != "" && channelId != "" && Enumerate(pages).shorts == []
    ensures status == Completed <==> apiKey != "" && channelId != "" && Enumerate(pages).shorts != []
    ensures status != Completed ==> rows == []
    ensures status == Completed ==>
              var shorts := Enumerate(pages).shorts;
              && (maxShorts >= 0 ==> |rows| == Min(|shorts|, maxShorts))
              && |rows| <= |shorts|
              && forall k :: 0 <= k < |rows| ==>
                   && rows[k].videoId == shorts[k].videoId
                   && rows[k].title == shorts[k].title
                   && rows[k].url == shorts[k].url
                   && rows[k].transcription == Transcription(transcriptOf(shorts[k].url))
  {
    rows := [];
    if apiKey == "" || channelId == "" {
      return MissingInput, [];
    }
    var shorts, fault := ObtainShorts(pages);
    if shorts == [] {
      return NoShorts, [];
    }
    var selected: seq<ShortRecord> := Slice(shorts, 0, maxShorts);
    assert selected <= shorts;
    var i := 0;
    while i < |selected|
      invariant 0 <= i <= |selected|
      invariant |rows| == i
      invariant forall k :: 0 <= k < i ==>
                  rows[k] == Row(selected[k].videoId, selected[k].title, selected[k].url,
                                 Transcription(transcriptOf(selected[k].url)))
    {
      var short := selected[i];
      var transcript := transcriptOf(short.url);
      var row := Row(short.videoId, short.title, short.url,
                     if transcript.Some? && transcript.value != "" then transcript.value else Placeholder);
      rows := rows + [row];
      i := i + 1;
    }
    status := Completed;
  }
}
