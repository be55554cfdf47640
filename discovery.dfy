/**
 Discovery (`get_video_list`): pages of the program's video list are fetched
 in order and accumulated until the first empty page, or until more items than
 the limit have been collected, with at most 1000 pages; the result is then cut
 down to the limit. The JSON endpoint is given as the sequence of item lists it
 serves, page by page; a page past the end of that sequence is empty.
 */
module Discovery {
  import opened Strings

  /** One entry of a page: the `(url, title, time)` triple that `parse` extracts. */
  datatype Video = Video(url: string, title: string, time: string)

  /** The most pages requested (`range(0, 1000)`). */
  const MaxPages: nat := 1000

  /** The list the endpoint serves for page `pg`. */
  function Page(pages: seq<seq<Video>>, pg: nat): seq<Video> {
    if pg < |pages| then pages[pg] else []
  }

  /** Pages `0 .. n-1`, concatenated in page order. */
  function Concat(pages: seq<seq<Video>>, n: nat): seq<Video>
    decreases n
  {
    if n == 0 then [] else Concat(pages, n - 1) + Page(pages, n - 1)
  }

  /**
   The loop's exit test after page `pg` has been added:
   `not video_list or (limit and len(result_list) > limit)`.
   */
  predicate StopsAfter(pages: seq<seq<Video>>, limit: int, pg: nat) {
    Page(pages, pg) == [] || (limit != 0 && |Concat(pages, pg + 1)| > limit)
  }

  /** How many pages the loop requests when it has reached page `from` without stopping. */
  function FetchedFrom(pages: seq<seq<Video>>, limit: int, from: nat): (n: nat)
    requires from <= MaxPages
    ensures from <= n <= MaxPages
    ensures from < MaxPages ==> from < n
    ensures forall pg :: from <= pg < n - 1 ==> !StopsAfter(pages, limit, pg)
    ensures n < MaxPages ==> StopsAfter(pages, limit, n - 1)
    decreases MaxPages - from
  {
    if from == MaxPages then MaxPages
    else if StopsAfter(pages, limit, from) then from + 1
    else FetchedFrom(pages, limit, from + 1)
  }

  /** The number of pages `get_video_list` requests. */
  function PagesFetched(pages: seq<seq<Video>>, limit: int): (n: nat)
    ensures 1 <= n <= MaxPages
  {
    FetchedFrom(pages, limit, 0)
  }

  /**
   Python's `s[:stop]`: a non-negative bound keeps at most that many items, a
   negative one drops that many from the end.
   */
  function SliceTo<T>(s: seq<T>, stop: int): (r: seq<T>)
    ensures stop >= 0 ==> |r| == if stop < |s| then stop else |s|
    ensures stop < 0 ==> |r| == if |s| + stop > 0 then |s| + stop else 0
    ensures r == s[..|r|]
  {
    if stop >= 0 then (if stop < |s| then s[..stop] else s)
    else if |s| + stop > 0 then s[..|s| + stop] else []
  }

  /** `if limit: result_list = result_list[:limit]`. */
  function ApplyLimit(items: seq<Video>, limit: int): (r: seq<Video>)
    ensures |r| <= |items| && r == items[..|r|]
    ensures limit == 0 ==> r == items
    ensures limit > 0 ==> |r| == if limit < |items| then limit else |items|
    ensures limit < 0 ==> |r| == if |items| + limit > 0 then |items| + limit else 0
  {
    if limit != 0 then SliceTo(items, limit) else items
  }

  /** What `get_video_list` returns. */
  function VideoList(pages: seq<seq<Video>>, limit: int): (r: seq<Video>)
    ensures var read := Concat(pages, PagesFetched(pages, limit)); |r| <= |read| && r == read[..|r|]
    ensures var read := Concat(pages, PagesFetched(pages, limit));
      limit > 0 ==> |r| == if limit < |read| then limit else |read|
    ensures limit > 0 ==> |r| <= limit
    ensures limit == 0 ==> r == Concat(pages, PagesFetched(pages, limit))
    ensures var read := Concat(pages, PagesFetched(pages, limit));
      limit < 0 ==> |r| == if |read| + limit > 0 then |read| + limit else 0
  {
    ApplyLimit(Concat(pages, PagesFetched(pages, limit)), limit)
  }

  /**
   `get_video_list`: requests pages in order, appends each to the result, stops
   on an empty page or once the count exceeds a non-zero limit, then truncates.
   Also returns the number of pages requested.
   */
  method GetVideoList(pages: seq<seq<Video>>, limit: int) returns (videos: seq<Video>, fetched: nat)
    ensures fetched == PagesFetched(pages, limit)
    ensures videos == VideoList(pages, limit)
  {
    var resultList: seq<Video> := [];
    fetched := 0;
    for pg := 0 to MaxPages
      invariant fetched == pg
      invariant resultList == Concat(pages, pg)
      invariant FetchedFrom(pages, limit, pg) == PagesFetched(pages, limit)
    {
      var videoList := Page(pages, pg);
      resultList := resultList + videoList;
      fetched := fetched + 1;
      if videoList == [] || (limit != 0 && |resultList| > limit) {
        break;
      }
    }
    if limit != 0 {
      resultList := SliceTo(resultList, limit);
    }
    videos := resultList;
  }

  /** Concatenating fewer pages gives a prefix: the result keeps page order. */
  lemma {:induction false} ConcatPrefix(pages: seq<seq<Video>>, m: nat, n: nat)
    requires m <= n
    ensures |Concat(pages, m)| <= |Concat(pages, n)|
    ensures Concat(pages, m) == Concat(pages, n)[..|Concat(pages, m)|]
    decreases n
  {
    if m < n {
      ConcatPrefix(pages, m, n - 1);
      var a := Concat(pages, m);
      var b := Concat(pages, n - 1);
      assert Concat(pages, n) == b + Page(pages, n - 1);
      assert (b + Page(pages, n - 1))[..|a|] == b[..|a|];
    }
  }

  /**
   Termination and the shape of what was read: at most 1000 pages are requested,
   no page before the last one requested was empty, and the collected items are
   a prefix of those pages in page order. The first and last facts restate
   the contracts of `PagesFetched` and `VideoList`; they are collected here
   beside the second for convenience.
   */
  lemma FetchShape(pages: seq<seq<Video>>, limit: int)
    ensures 1 <= PagesFetched(pages, limit) <= MaxPages
    ensures forall pg :: 0 <= pg < PagesFetched(pages, limit) - 1 ==> Page(pages, pg) != []
    ensures var n := PagesFetched(pages, limit);
      VideoList(pages, limit) == Concat(pages, n)[..|VideoList(pages, limit)|]
  {
    var n := PagesFetched(pages, limit);
    forall pg | 0 <= pg < n - 1
      ensures Page(pages, pg) != []
    {
      assert !StopsAfter(pages, limit, pg);
    }
  }

  /** Pagination never runs past an empty page: with page `e` empty, at most `e + 1` pages are requested. */
  lemma {:induction false} StopsAtEmptyPage(pages: seq<seq<Video>>, limit: int, e: nat)
    requires e < MaxPages && Page(pages, e) == []
    ensures PagesFetched(pages, limit) <= e + 1
  {
    assert StopsAfter(pages, limit, e);
  }

  /**
   The first empty page `e` ends discovery unless the limit stops it earlier;
   the items offered before it are `Concat(pages, e)`. Without a limit exactly
   those are returned, after `e + 1` requests.
   */
  lemma {:induction false} NoLimitReturnsAllBeforeEmptyPage(pages: seq<seq<Video>>, e: nat)
    requires e < MaxPages && Page(pages, e) == []
    requires forall pg :: 0 <= pg < e ==> Page(pages, pg) != []
    ensures PagesFetched(pages, 0) == e + 1
    ensures VideoList(pages, 0) == Concat(pages, e)
  {
    StopsAtEmptyPage(pages, 0, e);
    assert Concat(pages, e + 1) == Concat(pages, e) + [];
  }

  /**
   Limit enforcement: with `limit > 0` and the first empty page at `e`, the
   result is the first `min(limit, available)` of the items offered before `e`;
   in particular it never holds more than `limit` items.
   */
  lemma PositiveLimitTakesFirstItems(pages: seq<seq<Video>>, limit: int, e: nat)
    requires limit > 0
    requires e < MaxPages && Page(pages, e) == []
    requires forall pg :: 0 <= pg < e ==> Page(pages, pg) != []
    ensures var available := Concat(pages, e);
      VideoList(pages, limit) == available[..if limit < |available| then limit else |available|]
    ensures |VideoList(pages, limit)| <= limit
  {
    ReadBeforeEmptyPage(pages, limit, e);
    TakeOfPrefix(VideoList(pages, limit), Concat(pages, PagesFetched(pages, limit)), Concat(pages, e), limit);
  }

  /**
   With the first empty page at `e`, what the loop accumulated is a prefix of the
   items before `e`: all of them, or an earlier stop with more than `limit`.
   */
  lemma ReadBeforeEmptyPage(pages: seq<seq<Video>>, limit: int, e: nat)
    requires e < MaxPages && Page(pages, e) == []
    requires forall pg :: 0 <= pg < e ==> Page(pages, pg) != []
    ensures var got, available := Concat(pages, PagesFetched(pages, limit)), Concat(pages, e);
      |got| <= |available| && got == available[..|got|] &&
      (|got| < |available| ==> limit != 0 && |got| > limit)
  {
    var n := PagesFetched(pages, limit);
    StopsAtEmptyPage(pages, limit, e);
    assert Concat(pages, e + 1) == Concat(pages, e) + [];
    ConcatPrefix(pages, n, e + 1);
    if n < e + 1 {
      // the limit stopped it: more than `limit` items were already collected
      assert Page(pages, n - 1) != [] && StopsAfter(pages, limit, n - 1);
    }
  }

  /** Taking at most `limit` items of a prefix that is either whole or longer than `limit`. */
  lemma TakeOfPrefix(r: seq<Video>, got: seq<Video>, available: seq<Video>, limit: int)
    requires limit > 0
    requires |got| <= |available| && got == available[..|got|]
    requires |got| < |available| ==> |got| > limit
    requires |r| == (if limit < |got| then limit else |got|) && r == got[..|r|]
    ensures r == available[..if limit < |available| then limit else |available|]
  {
  }

  /**
   The stop test is strict: when the count lands exactly on the limit after
   page `q`, page `q + 1` is still requested.
   */
  lemma {:induction false} ExactLimitFetchesOneMorePage(pages: seq<seq<Video>>, limit: int, q: nat)
    requires limit > 0 && q + 1 < MaxPages
    requires forall pg :: 0 <= pg < q ==> !StopsAfter(pages, limit, pg)
    requires Page(pages, q) != [] && |Concat(pages, q + 1)| == limit
    ensures PagesFetched(pages, limit) >= q + 2
  {
    assert !StopsAfter(pages, limit, q);
    FetchesPastOpenPages(pages, limit, 0, q);
  }

  /** When no page from `from` to `q` triggers the exit test, the loop requests page `q + 1`. */
  lemma {:induction false} FetchesPastOpenPages(pages: seq<seq<Video>>, limit: int, from: nat, q: nat)
    requires from <= q < MaxPages - 1
    requires forall pg :: from <= pg <= q ==> !StopsAfter(pages, limit, pg)
    ensures FetchedFrom(pages, limit, from) >= q + 2
    decreases q - from
  {
    assert !StopsAfter(pages, limit, from);
    if from < q {
      FetchesPastOpenPages(pages, limit, from + 1, q);
    }
  }

  /**
   A negative limit (which the command line accepts) stops after the first
   page and drops that many items from its end.
   */
  lemma NegativeLimit(pages: seq<seq<Video>>, limit: int)
    requires limit < 0
    ensures PagesFetched(pages, limit) == 1
    ensures VideoList(pages, limit) == SliceTo(Page(pages, 0), limit)
  {
    assert StopsAfter(pages, limit, 0);
    assert Concat(pages, 1) == [] + Page(pages, 0);
  }

  /** For example, two items on page 0 and none on page 1 give those two items after two requests. */
  lemma TwoItemsThenEmpty(a: Video, b: Video)
    ensures PagesFetched([[a, b], []], 0) == 2
    ensures VideoList([[a, b], []], 0) == [a, b]
  {
    NoLimitReturnsAllBeforeEmptyPage([[a, b], []], 1);
    assert Concat([[a, b], []], 1) == [] + [a, b];
  }

  /** The callback wrapper `jsonify` strips: `lstrip("lanmu_0(")` and `rstrip(");")`. */
  const EnvelopeHead: string := "lanmu_0("
  const EnvelopeTail: string := ");"

  /** The text `jsonify` hands to the JSON decoder. */
  function StripEnvelope(text: string): (r: string)
    ensures r != [] ==> r[0] !in EnvelopeHead && r[|r| - 1] !in EnvelopeTail
    ensures |r| <= |text|
  {
    RStrip(LStrip(text, EnvelopeHead), EnvelopeTail)
  }

  /**
   The envelope round trip: a payload that starts outside the head's character
   set and ends outside the tail's (a JSON object, `{...}`) comes back unchanged.
   */
  lemma EnvelopeRoundTrip(payload: string)
    requires payload != [] && payload[0] !in EnvelopeHead && payload[|payload| - 1] !in EnvelopeTail
    ensures StripEnvelope(EnvelopeHead + payload + EnvelopeTail) == payload
  {
    assert EnvelopeHead + payload + EnvelopeTail == EnvelopeHead + (payload + EnvelopeTail);
    LStripPrefix(EnvelopeHead, payload + EnvelopeTail, EnvelopeHead);
    RStripSuffix(payload, EnvelopeTail, EnvelopeTail);
  }

  /**
   The strip works on character sets, not on the literal prefix: a payload made
   only of letters in `lanmu_0(` (here `null`) is stripped away entirely.
   */
  lemma EnvelopeStripsByCharacterSet()
    ensures StripEnvelope("lanmu_0(null);") == ""
  {
    LStripPrefix("lanmu_0(null", ");", EnvelopeHead);
    assert "lanmu_0(null" + ");" == "lanmu_0(null);";
  }
}
