/**
 * `obtener_shorts_del_canal`: walks the pages of a channel's video search,
 * looks up each video's duration, keeps the ones the duration heuristic calls
 * Short, and gives up with an empty list on page-level errors.
 *
 * The API client is replaced by the responses it would produce: `pages` lists
 * what successive `request.execute()` calls return, and the search cursor
 * after page `i` exists exactly when a page `i + 1` is listed.
 */
module Enumerator {
  import opened Wrappers
  import opened PyText
  import opened Duration

  /** One entry of `shorts_info`. */
  datatype ShortRecord = ShortRecord(videoId: string, title: string, url: string)

  /** What the per-video `videos().list(...).execute()` call gave. */
  datatype Lookup =
    | Details(duration: string)     // non-empty `items`; the first one's `contentDetails.duration`
    | NoItems                       // `items` missing or empty
    | LookupFailed(message: string) // the call raised `HttpError`
    | LookupCrashed                 // the call, or reading its reply, raised anything else

  /** A search result item together with the outcome of its detail lookup. */
  datatype Item = Item(videoId: string, title: string, lookup: Lookup)

  /** What one `request.execute()` of the search gave. */
  datatype Page =
    | ErrorBody(errorMessage: Option<string>) // the response holds an 'error' entry, with or without a 'message'
    | SearchFailed(message: string)      // the call raised `HttpError`; `message` is `str(e)`
    | Results(items: seq<Item>)
    | SearchCrashed                      // the call, or reading its reply, raised anything but `HttpError`

  /** Why the enumeration gave up; each comes with an empty list of Shorts. */
  datatype Fault =
    | ApiError(message: string)  // an 'error' entry in the search response
    | QuotaExceeded
    | InvalidKey
    | Transport(message: string)
    | Unexpected                 // any other exception, such as the `ValueError` of the duration test

  /** The returned list, and the error the source reports alongside an empty one. */
  datatype Enumeration = Enumeration(shorts: seq<ShortRecord>, fault: Option<Fault>)

  /** The loop stops asking for pages once this many Shorts are collected. */
  const Cap: nat := 50
  /** `maxResults` of the search request. */
  const PageSize: nat := 50
  const ShortsUrlPrefix := "https://www.youtube.com/shorts/"
  const UnknownApiError := "Error desconocido de API"

  function ShortsUrl(videoId: string): string
  {
    ShortsUrlPrefix + videoId
  }

  // ---------------------------------------------------------------------------
  // Error messages
  // ---------------------------------------------------------------------------

  /** The message chosen for a search call that raised `HttpError`, by substrings of its lower-cased text. */
  function SearchFault(message: string): Fault
  {
    var lowered := Lower(message);
    if Contains(lowered, "quota") then QuotaExceeded
    else if Contains(lowered, "invalid") then InvalidKey
    else Transport(message)
  }

  lemma {:induction false} LowerAppend(a: string, b: string)
    ensures Lower(a + b) == Lower(a) + Lower(b)
  {
    assert forall i :: 0 <= i < |a + b| ==> Lower(a + b)[i] == (Lower(a) + Lower(b))[i];
  }

  lemma {:induction false} ContainsWord(pre: string, word: string, post: string, target: string)
    requires Lower(word) == target
    ensures Contains(Lower(pre + word + post), target)
  {
    LowerAppend(pre + word, post);
    LowerAppend(pre, word);
    var s := Lower(pre + word + post);
    assert s == Lower(pre) + target + Lower(post);
    assert OccursAt(s, target, |pre|) by {
      assert s[|pre|..|pre| + |target|] == target;
    }
    ContainsIff(s, target);
  }

  /** A mention of "quota", in any letter case, decides the message even when "invalid" appears too. */
  lemma QuotaAnywhere(pre: string, word: string, post: string)
    requires Lower(word) == "quota"
    ensures SearchFault(pre + word + post) == QuotaExceeded
  {
    ContainsWord(pre, word, post, "quota");
  }

  /** Without "quota", a mention of "invalid" in any letter case is read as a bad API key. */
  lemma InvalidWithoutQuota(pre: string, word: string, post: string)
    requires Lower(word) == "invalid"
    requires !Contains(Lower(pre + word + post), "quota")
    ensures SearchFault(pre + word + post) == InvalidKey
  {
    ContainsWord(pre, word, post, "invalid");
  }

  // ---------------------------------------------------------------------------
  // One page
  // ---------------------------------------------------------------------------

  /** What the inner loop does with one item. */
  datatype Step = Keep(record: ShortRecord) | Skip | Abort

  function Examine(item: Item): Step
  {
    match item.lookup
    case Details(duration) =>
      (match Classify(duration)
       case Short => Keep(ShortRecord(item.videoId, item.title, ShortsUrl(item.videoId)))
       case NotShort => Skip
       case ParseError => Abort)
    case NoItems => Skip
    case LookupFailed(_) => Skip
    case LookupCrashed => Abort
  }

  /** Some item's duration test raises. */
  predicate Aborts(items: seq<Item>)
  {
    exists j :: 0 <= j < |items| && Examine(items[j]).Abort?
  }

  /** The record one item contributes: none, or the one `Examine` keeps. */
  function Kept(item: Item): seq<ShortRecord>
  {
    if Examine(item).Keep? then [Examine(item).record] else []
  }

  /** The records of the kept items, in item order. */
  function Pick(items: seq<Item>): (r: seq<ShortRecord>)
    ensures |r| <= |items|
  {
    if items == [] then [] else Pick(items[..|items| - 1]) + Kept(items[|items| - 1])
  }

  lemma PickSnoc(items: seq<Item>, j: nat)
    requires j < |items|
    ensures Pick(items[..j + 1]) == Pick(items[..j]) + Kept(items[j])
    ensures Aborts(items[..j + 1]) <==> Aborts(items[..j]) || Examine(items[j]).Abort?
  {
    assert items[..j + 1][..j] == items[..j];
    if Aborts(items[..j + 1]) && !Examine(items[j]).Abort? {
      var k :| 0 <= k < j + 1 && Examine(items[..j + 1][k]).Abort?;
      assert items[..j][k] == items[k];
    }
  }

  lemma {:induction false} PickAppend(a: seq<Item>, b: seq<Item>)
    ensures Pick(a + b) == Pick(a) + Pick(b)
    decreases |b|
  {
    if b == [] {
      assert a + b == a;
    } else {
      assert (a + b)[..|a + b| - 1] == a + b[..|b| - 1];
      PickAppend(a, b[..|b| - 1]);
    }
  }

  /** A record is kept exactly for an item whose lookup gave a duration the heuristic calls Short. */
  lemma {:induction false} PickMembers(items: seq<Item>, r: ShortRecord)
    ensures r in Pick(items) <==>
      exists j :: 0 <= j < |items| && items[j].lookup.Details? && Classify(items[j].lookup.duration) == Short &&
                  r == ShortRecord(items[j].videoId, items[j].title, ShortsUrl(items[j].videoId))
  {
    if items != [] {
      var init := items[..|items| - 1];
      PickMembers(init, r);
      forall j | 0 <= j < |init| ensures init[j] == items[j] { }
    }
  }

  /** Every record carries the Shorts URL of its own video id. */
  lemma {:induction false} PickUrls(items: seq<Item>)
    ensures forall r :: r in Pick(items) ==> r.url == ShortsUrl(r.videoId)
  {
    forall r | r in Pick(items) ensures r.url == ShortsUrl(r.videoId) {
      PickMembers(items, r);
    }
  }

  /** A video whose lookup failed or found nothing is dropped, and only that video. */
  lemma {:induction false} SkipOnlyThatVideo(items: seq<Item>, j: nat)
    requires j < |items| && (items[j].lookup.NoItems? || items[j].lookup.LookupFailed?)
    ensures Pick(items) == Pick(items[..j]) + Pick(items[j + 1..])
  {
    PickAround(items, j);
    SkippedKeepsNothing(items[j]);
    assert Pick(items[..j]) + [] == Pick(items[..j]);
  }

  lemma SkippedKeepsNothing(item: Item)
    requires item.lookup.NoItems? || item.lookup.LookupFailed?
    ensures Kept(item) == []
  {
  }

  /** The records of a run of items split around item `j`. */
  lemma PickAround(items: seq<Item>, j: nat)
    requires j < |items|
    ensures Pick(items) == Pick(items[..j]) + Kept(items[j]) + Pick(items[j + 1..])
  {
    PickSplit(items, j);
    PickFirst(items[j..]);
    assert items[j..][1..] == items[j + 1..];
    Assoc(Pick(items[..j]), Kept(items[j]), Pick(items[j + 1..]));
  }

  lemma PickSplit(items: seq<Item>, j: nat)
    requires j <= |items|
    ensures Pick(items) == Pick(items[..j]) + Pick(items[j..])
  {
    assert items == items[..j] + items[j..];
    PickAppend(items[..j], items[j..]);
  }

  lemma PickFirst(items: seq<Item>)
    requires items != []
    ensures Pick(items) == Kept(items[0]) + Pick(items[1..])
  {
    assert items == [items[0]] + items[1..];
    PickAppend([items[0]], items[1..]);
    PickOne(items[0]);
  }

  lemma PickOne(item: Item)
    ensures Pick([item]) == Kept(item)
  {
    assert [item][..0] == [];
  }

  // ---------------------------------------------------------------------------
  // The page loop
  // ---------------------------------------------------------------------------

  /** The error a page ends the enumeration with, if any. */
  function PageFault(page: Page): Option<Fault>
  {
    match page
    case ErrorBody(message) => Some(ApiError(message.GetOr(UnknownApiError)))
    case SearchFailed(message) => Some(SearchFault(message))
    case Results(items) => if Aborts(items) then Some(Unexpected) else None
    case SearchCrashed => Some(Unexpected)
  }

  function PageRecords(page: Page): seq<ShortRecord>
  {
    if page.Results? then Pick(page.items) else []
  }

  /** The enumeration from page `i` on, with `acc` collected so far. */
  function RunFrom(pages: seq<Page>, i: nat, acc: seq<ShortRecord>): Enumeration
    decreases |pages| - i
  {
    if i >= |pages| || |acc| >= Cap then Enumeration(acc, None)
    else if PageFault(pages[i]).Some? then Enumeration([], PageFault(pages[i]))
    else RunFrom(pages, i + 1, acc + PageRecords(pages[i]))
  }

  function Enumerate(pages: seq<Page>): Enumeration
  {
    RunFrom(pages, 0, [])
  }

  lemma ResultsStep(pages: seq<Page>, i: nat, acc: seq<ShortRecord>)
    requires i < |pages| && |acc| < Cap && pages[i].Results? && !Aborts(pages[i].items)
    ensures RunFrom(pages, i, acc) == RunFrom(pages, i + 1, acc + Pick(pages[i].items))
  {
  }

  /**
   * The inner loop of lines 115-135 over one page's items: the records of the
   * Shorts in order, or `aborted` as soon as an item's duration test raises.
   */
  method ScanPage(items: seq<Item>) returns (kept: seq<ShortRecord>, aborted: bool)
    ensures aborted <==> Aborts(items)
    ensures !aborted ==> kept == Pick(items)
  {
    kept := [];
    var j := 0;
    while j < |items|
      invariant 0 <= j <= |items|
      invariant !Aborts(items[..j])
      invariant kept == Pick(items[..j])
    {
      var item := items[j];
      PickSnoc(items, j);
      match item.lookup {
        case Details(duration) =>
          var verdict := Classify(duration);
          if verdict == ParseError {
            return [], true;
          }
          if verdict == Short {
            kept := kept + [ShortRecord(item.videoId, item.title, ShortsUrl(item.videoId))];
          }
        case NoItems =>
        case LookupFailed(_) =>
        case LookupCrashed =>
          return [], true;
      }
      j := j + 1;
    }
    assert items[..j] == items;
    aborted := false;
  }

  lemma FaultStep(pages: seq<Page>, i: nat, acc: seq<ShortRecord>)
    requires i < |pages| && |acc| < Cap && PageFault(pages[i]).Some?
    ensures RunFrom(pages, i, acc) == Enumeration([], PageFault(pages[i]))
  {
  }

  /** The cursor loop of lines 104-150, with the early returns of lines 112, 148 and 154. */
  method ObtainShorts(pages: seq<Page>) returns (shorts: seq<ShortRecord>, fault: Option<Fault>)
    ensures Enumeration(shorts, fault) == Enumerate(pages)
  {
    shorts := [];
    var i := 0;
    while i < |pages| && |shorts| < Cap
      invariant 0 <= i <= |pages|
      invariant RunFrom(pages, i, shorts) == Enumerate(pages)
      decreases |pages| - i
    {
      match pages[i] {
      case ErrorBody(message) =>
        FaultStep(pages, i, shorts);
        return [], Some(ApiError(message.GetOr(UnknownApiError)));
      case SearchFailed(message) =>
        FaultStep(pages, i, shorts);
        return [], Some(SearchFault(message));
      case SearchCrashed =>
        FaultStep(pages, i, shorts);
        return [], Some(Unexpected);
      case Results(items) =>
        var kept, aborted := ScanPage(items);
        if aborted {
          FaultStep(pages, i, shorts);
          return [], Some(Unexpected);
        }
        ResultsStep(pages, i, shorts);
        shorts := shorts + kept;
      }
      i := i + 1;
    }
    fault := None;
  }

  // ---------------------------------------------------------------------------
  // Properties of the enumeration
  // ---------------------------------------------------------------------------

  /** The records of the first `k` pages, page after page. */
  function Collected(pages: seq<Page>, k: nat): seq<ShortRecord>
    requires k <= |pages|
  {
    if k == 0 then [] else Collected(pages, k - 1) + PageRecords(pages[k - 1])
  }

  /**
   * The loop executes exactly the pages `pages[..n]`: each of them was asked
   * for while fewer than `Cap` records were held, all but the last went
   * through without error, and after the last one the loop had to stop (no
   * cursor left, the cap reached, or an error).
   */
  ghost predicate ReadUpTo(pages: seq<Page>, n: nat)
  {
    n <= |pages| &&
    (forall k :: 0 <= k < n ==> |Collected(pages, k)| < Cap) &&
    (forall k :: 0 <= k < n - 1 ==> PageFault(pages[k]).None?) &&
    (n == |pages| || |Collected(pages, n)| >= Cap || (n > 0 && PageFault(pages[n - 1]).Some?))
  }

  /** What the enumeration returns once it has executed `pages[..n]`. */
  ghost function Outcome(pages: seq<Page>, n: nat): Enumeration
    requires n <= |pages|
  {
    if n > 0 && PageFault(pages[n - 1]).Some? then Enumeration([], PageFault(pages[n - 1]))
    else Enumeration(Collected(pages, n), None)
  }

  /** The number of pages the loop executes when it reaches page `i`. */
  ghost function StopAt(pages: seq<Page>, i: nat): nat
    requires i <= |pages|
    decreases |pages| - i
  {
    if i == |pages| || |Collected(pages, i)| >= Cap then i
    else if PageFault(pages[i]).Some? then i + 1
    else StopAt(pages, i + 1)
  }

  lemma {:induction false} RunFromReads(pages: seq<Page>, i: nat)
    requires i <= |pages|
    requires forall k :: 0 <= k < i ==> |Collected(pages, k)| < Cap
    requires forall k :: 0 <= k < i ==> PageFault(pages[k]).None?
    ensures i <= StopAt(pages, i) && ReadUpTo(pages, StopAt(pages, i))
    ensures RunFrom(pages, i, Collected(pages, i)) == Outcome(pages, StopAt(pages, i))
    decreases |pages| - i
  {
    if i == |pages| || |Collected(pages, i)| >= Cap {
      StopsAt(pages, i);
    } else if PageFault(pages[i]).Some? {
      FailsAt(pages, i);
    } else {
      PassStep(pages, i);
      ReadOn(pages, i);
      RunFromReads(pages, i + 1);
    }
  }

  /** A page read without error, with fewer than `Cap` records held, extends the read prefix by one. */
  lemma ReadOn(pages: seq<Page>, i: nat)
    requires i < |pages| && |Collected(pages, i)| < Cap && PageFault(pages[i]).None?
    requires forall k :: 0 <= k < i ==> |Collected(pages, k)| < Cap
    requires forall k :: 0 <= k < i ==> PageFault(pages[k]).None?
    ensures forall k :: 0 <= k < i + 1 ==> |Collected(pages, k)| < Cap
    ensures forall k :: 0 <= k < i + 1 ==> PageFault(pages[k]).None?
    ensures StopAt(pages, i) == StopAt(pages, i + 1)
  {
  }

  lemma PassStep(pages: seq<Page>, i: nat)
    requires i < |pages| && |Collected(pages, i)| < Cap && PageFault(pages[i]).None?
    ensures RunFrom(pages, i, Collected(pages, i)) == RunFrom(pages, i + 1, Collected(pages, i + 1))
  {
  }

  lemma StopsAt(pages: seq<Page>, i: nat)
    requires i <= |pages|
    requires forall k :: 0 <= k < i ==> |Collected(pages, k)| < Cap
    requires forall k :: 0 <= k < i ==> PageFault(pages[k]).None?
    requires i == |pages| || |Collected(pages, i)| >= Cap
    ensures ReadUpTo(pages, i) && RunFrom(pages, i, Collected(pages, i)) == Outcome(pages, i)
  {
  }

  lemma FailsAt(pages: seq<Page>, i: nat)
    requires i < |pages| && |Collected(pages, i)| < Cap && PageFault(pages[i]).Some?
    requires forall k :: 0 <= k < i ==> |Collected(pages, k)| < Cap
    requires forall k :: 0 <= k < i ==> PageFault(pages[k]).None?
    ensures ReadUpTo(pages, i + 1) && RunFrom(pages, i, Collected(pages, i)) == Outcome(pages, i + 1)
  {
  }

  /** The enumeration is decided by the pages it executes, as `ReadUpTo` describes them. */
  lemma ReadsPrefix(pages: seq<Page>)
    ensures exists n :: ReadUpTo(pages, n) && Enumerate(pages) == Outcome(pages, n)
  {
    RunFromReads(pages, 0);
  }

  lemma {:induction false} RunFromFault(pages: seq<Page>, i: nat, acc: seq<ShortRecord>)
    ensures RunFrom(pages, i, acc).fault.Some? ==> RunFrom(pages, i, acc).shorts == []
    decreases |pages| - i
  {
    if !(i >= |pages| || |acc| >= Cap) && PageFault(pages[i]).None? {
      RunFromFault(pages, i + 1, acc + PageRecords(pages[i]));
    }
  }

  /** Whatever goes wrong at page level, the list that comes back is empty. */
  lemma FaultMeansEmpty(pages: seq<Page>)
    ensures Enumerate(pages).fault.Some? ==> Enumerate(pages).shorts == []
  {
    RunFromFault(pages, 0, []);
  }

  lemma {:induction false} CollectedUrls(pages: seq<Page>, k: nat)
    requires k <= |pages|
    ensures forall r :: r in Collected(pages, k) ==> r.url == ShortsUrl(r.videoId)
  {
    if k > 0 {
      CollectedUrls(pages, k - 1);
      if pages[k - 1].Results? {
        PickUrls(pages[k - 1].items);
      }
    }
  }

  /** Every returned record links to the Shorts page of its own video. */
  lemma ShortsUrls(pages: seq<Page>)
    ensures forall r :: r in Enumerate(pages).shorts ==> r.url == ShortsUrl(r.videoId)
  {
    RunFromReads(pages, 0);
    var n := StopAt(pages, 0);
    CollectedUrls(pages, n);
  }

  /**
   * The cap is tested once per page, so the list can pass 50 records, but by
   * less than one page: with pages of at most `PageSize` items it holds fewer
   * than `Cap + PageSize`.
   */
  lemma Overshoot(pages: seq<Page>)
    requires forall k :: 0 <= k < |pages| && pages[k].Results? ==> |pages[k].items| <= PageSize
    ensures |Enumerate(pages).shorts| < Cap + PageSize
  {
    RunFromReads(pages, 0);
    var n := StopAt(pages, 0);
    if n > 0 && PageFault(pages[n - 1]).None? {
      assert |Collected(pages, n - 1)| < Cap;
      assert |PageRecords(pages[n - 1])| <= PageSize;
    }
  }

  /** "PT30S" has no 'M': a video of that duration is a Short. */
  lemma ThirtySecondsIsShort()
    ensures Classify("PT30S") == Short
  {
    assert "PT30S"[4] == 'S';
    assert 'M' !in "PT30S";
  }

  lemma {:induction false} AllShortPicked(items: seq<Item>)
    requires forall k :: 0 <= k < |items| ==> items[k].lookup == Details("PT30S")
    ensures |Pick(items)| == |items| && !Aborts(items)
  {
    if items != [] {
      ThirtySecondsIsShort();
      AllShortPicked(items[..|items| - 1]);
      PickSnoc(items, |items| - 1);
      assert items[..|items| - 1 + 1] == items;
    }
  }

  /**
   * Two full-size pages the search can return: one Short on the first page
   * keeps the loop going, and the 50 Shorts of the second page all land,
   * giving 51 records.
   */
  lemma CapCanBeExceeded()
    ensures var first := [Item("a", "t", Details("PT30S"))];
            var second := seq(PageSize, k requires 0 <= k => Item(Decimal(k), "t", Details("PT30S")));
            |Enumerate([Results(first), Results(second)]).shorts| == 51
  {
    var first := [Item("a", "t", Details("PT30S"))];
    var second := seq(PageSize, k requires 0 <= k => Item(Decimal(k), "t", Details("PT30S")));
    var pages := [Results(first), Results(second)];
    AllShortPicked(first);
    AllShortPicked(second);
    ResultsStep(pages, 0, []);
    ResultsStep(pages, 1, Pick(first));
  }
}
