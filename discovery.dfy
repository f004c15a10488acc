/**
 * Match discovery (`get_new_matches`): page newest-first through a hub's past
 * matches, ten at a time, until the stored watermark or an empty page, and
 * return the finished ones oldest-first.
 *
 * The match-hub API is a parameter: `history[k]` is what the request with
 * offset `10 * k` answers, and every request past the end of `history`
 * answers an empty page.
 */
module MatchDiscovery {
  import opened Wrappers

  const PageSize: nat := 10
  const FinishedStatus: string := "FINISHED"

  /** One entry of a page's `items` list. */
  datatype Item = Item(matchId: string, status: string, demoUrls: seq<string>,
                       faction1: string, faction2: string)

  /** The answer to one page request: a 2xx body, or a status that `raise_for_status` rejects. */
  datatype Page = Items(items: seq<Item>) | HttpError(status: int)

  /** The `last` entry of a hub record: the key is missing, it holds JSON null, or a match id. */
  datatype LastField = Absent | Null | Last(id: string)

  /** A finished match to upload (the `Match` named tuple). */
  datatype Match = Match(id: string, hubName: string, demoUrl: string, faction1: string, faction2: string)

  /**
   * Why discovery raised: a rejected page, a hub record without `last`, or a
   * finished item without demo URLs.
   */
  datatype DiscoveryError = PageFailed(status: int) | MissingLast | NoDemoUrl

  // ---------------------------------------------------------------------------
  // The API as seen through page requests

  /** The answer to page `k`; past the end of the history the API has nothing more. */
  function PageAt(history: seq<Page>, k: nat): Page {
    if k < |history| then history[k] else Items([])
  }

  /** The items a 2xx answer to page `k` lists (none for a rejected page). */
  function PageItems(history: seq<Page>, k: nat): seq<Item> {
    if PageAt(history, k).Items? then PageAt(history, k).items else []
  }

  /** The items of pages `0 .. n-1`, in the API's newest-first order. */
  function ItemsBefore(history: seq<Page>, n: nat): seq<Item> {
    if n == 0 then [] else ItemsBefore(history, n - 1) + PageItems(history, n - 1)
  }

  /**
   * Comparing `it` with the hub's `last` ends the scan: it is the watermark,
   * or the lookup of `last` raises.
   */
  predicate EndsScan(it: Item, last: LastField) {
    last.Absent? || last == Last(it.matchId)
  }

  /** No further page is requested after this one. */
  predicate StopsAt(page: Page, last: LastField) {
    || page.HttpError? || page.items == [] || last.Absent?
    || exists it :: it in page.items && last == Last(it.matchId)
  }

  /** The first page at or after `k` on which the scan stops. */
  function StopFrom(history: seq<Page>, last: LastField, k: nat): (s: nat)
    decreases |history| - k
    ensures k <= s && (k <= |history| ==> s <= |history|)
    ensures StopsAt(PageAt(history, s), last)
    ensures forall j :: k <= j < s ==> !StopsAt(PageAt(history, j), last)
  {
    if StopsAt(PageAt(history, k), last) then k else StopFrom(history, last, k + 1)
  }

  /**
   * The page the scan stops on: the last page it requests, unless a finished
   * item without a demo URL raises `IndexError` on an earlier page.
   */
  function StopPage(history: seq<Page>, last: LastField): (s: nat)
    ensures s <= |history|
    ensures StopsAt(PageAt(history, s), last)
    ensures forall j :: 0 <= j < s ==> !StopsAt(PageAt(history, j), last)
  {
    StopFrom(history, last, 0)
  }

  /** The items of one page that precede the first one ending the scan. */
  function UntilWatermark(items: seq<Item>, last: LastField): (r: seq<Item>)
    ensures |r| <= |items| && r == items[..|r|]
    ensures forall it :: it in r ==> !EndsScan(it, last)
    ensures forall j :: 0 <= j < |r| ==> !EndsScan(items[j], last)
    ensures |r| < |items| ==> EndsScan(items[|r|], last)
  {
    if items == [] || EndsScan(items[0], last) then []
    else [items[0]] + UntilWatermark(items[1..], last)
  }

  /** Every item the scan compares with `last` and finds different, in API order. */
  function Scanned(history: seq<Page>, last: LastField): seq<Item> {
    var s := StopPage(history, last);
    ItemsBefore(history, s) + UntilWatermark(PageItems(history, s), last)
  }

  // ---------------------------------------------------------------------------
  // From items to matches

  predicate IsFinished(it: Item) {
    it.status == FinishedStatus
  }

  /** Building a `Match` from a finished item reads `demo_url[0]`, which raises on an empty list. */
  predicate HasDemo(it: Item) {
    !IsFinished(it) || it.demoUrls != []
  }

  predicate AllHaveDemo(items: seq<Item>) {
    forall it :: it in items ==> HasDemo(it)
  }

  function ToMatch(it: Item, hubName: string): (m: Match)
    requires it.demoUrls != []
  {
    Match(it.matchId, hubName, it.demoUrls[0], it.faction1, it.faction2)
  }

  /** The finished items, in their original order. */
  function FinishedOnly(items: seq<Item>): (r: seq<Item>)
    ensures forall i :: 0 <= i < |r| ==> IsFinished(r[i]) && r[i] in items
  {
    if items == [] then []
    else (if IsFinished(items[0]) then [items[0]] else []) + FinishedOnly(items[1..])
  }

  /**
   * The finished items as matches, oldest first: the API lists newest first,
   * so the first item's match, when it is finished, comes last.
   */
  function Chronological(items: seq<Item>, hubName: string): seq<Match>
    requires AllHaveDemo(items)
  {
    if items == [] then []
    else
      var older := Chronological(items[1..], hubName);
      if IsFinished(items[0]) then
        assert items[0] in items;
        older + [ToMatch(items[0], hubName)]
      else older
  }

  /**
   * What `get_new_matches` returns for a hub, or the error it raises, in one
   * formula over the pages: everything before the stop page and the stop
   * page's items before the watermark are scanned.
   */
  function Discover(history: seq<Page>, hubName: string, last: LastField)
    : Result<seq<Match>, DiscoveryError>
  {
    var s := StopPage(history, last);
    var seen := Scanned(history, last);
    if !AllHaveDemo(seen) then Err(NoDemoUrl)
    else if PageAt(history, s).HttpError? then Err(PageFailed(PageAt(history, s).status))
    else if last.Absent? && PageAt(history, s).items != [] then Err(MissingLast)
    else Ok(Chronological(seen, hubName))
  }

  /** `acc` appended to a successful result: the matches found earlier are the newer ones. */
  function Prepend(r: Result<seq<Match>, DiscoveryError>, acc: seq<Match>)
    : Result<seq<Match>, DiscoveryError>
  {
    match r
    case Err(e) => Err(e)
    case Ok(older) => Ok(older + acc)
  }

  /** How the loop over one page's items ends: past the last item, on the watermark, or by raising. */
  datatype PageEnd = Exhausted | WatermarkMet | Raised(error: DiscoveryError)

  /** The end of the loop over a page, and the matches it found there, oldest first. */
  datatype PageScan = PageScan(end: PageEnd, found: seq<Match>)

  /**
   * The loop over one page's items: it raises on a missing `last` or on a
   * finished item without demo URLs, stops at the watermark, and otherwise
   * puts each finished item's match in front of those found before it.
   */
  function ScanItems(items: seq<Item>, hubName: string, last: LastField): PageScan {
    if items == [] then PageScan(Exhausted, [])
    else if last.Absent? then PageScan(Raised(MissingLast), [])
    else if last == Last(items[0].matchId) then PageScan(WatermarkMet, [])
    else if IsFinished(items[0]) && items[0].demoUrls == [] then PageScan(Raised(NoDemoUrl), [])
    else
      var rest := ScanItems(items[1..], hubName, last);
      PageScan(rest.end, rest.found + if IsFinished(items[0]) then [ToMatch(items[0], hubName)] else [])
  }

  /**
   * Discovery page by page, as the loops meet the pages: the result of the
   * scan from page `k` on, oldest first, or the error it runs into first.
   */
  function ScanFrom(history: seq<Page>, hubName: string, last: LastField, k: nat)
    : Result<seq<Match>, DiscoveryError>
    decreases |history| - k
  {
    match PageAt(history, k)
    case HttpError(status) => Err(PageFailed(status))
    case Items(items) =>
      if items == [] then Ok([])
      else
        var page := ScanItems(items, hubName, last);
        match page.end
        case Raised(e) => Err(e)
        case WatermarkMet => Ok(page.found)
        case Exhausted => Prepend(ScanFrom(history, hubName, last, k + 1), page.found)
  }

  /** What `get_new_matches` returns for a hub, or the error it raises, page by page. */
  function Scan(history: seq<Page>, hubName: string, last: LastField): Result<seq<Match>, DiscoveryError> {
    ScanFrom(history, hubName, last, 0)
  }

  // ---------------------------------------------------------------------------
  // The scan as the script runs it

  /**
   * The `for match in matches` loop of `get_new_matches` over one page:
   * `newer` holds the matches found on the pages before, and each finished
   * item's match is put in front (`appendleft`).
   */
  method ScanPage(matches: seq<Item>, hubName: string, last: LastField, newer: seq<Match>)
    returns (end: PageEnd, newMatches: seq<Match>)
    ensures end == ScanItems(matches, hubName, last).end
    ensures !end.Raised? ==> newMatches == ScanItems(matches, hubName, last).found + newer
  {
    newMatches := newer;
    var i := 0;
    assert matches[0..] == matches;
    while i < |matches|
      invariant i <= |matches|
      invariant ScanItems(matches, hubName, last).end == ScanItems(matches[i..], hubName, last).end
      invariant !ScanItems(matches, hubName, last).end.Raised? ==>
                  ScanItems(matches, hubName, last).found + newer
                  == ScanItems(matches[i..], hubName, last).found + newMatches
    {
      var m := matches[i];
      assert matches[i..][1..] == matches[i + 1..];
      if last.Absent? {
        return Raised(MissingLast), newMatches;
      }
      if Last(m.matchId) == last {
        return WatermarkMet, newMatches;
      } else if m.status == FinishedStatus {
        if m.demoUrls == [] {
          return Raised(NoDemoUrl), newMatches;
        }
        newMatches := [ToMatch(m, hubName)] + newMatches;
      }
      i := i + 1;
    }
    end := Exhausted;
  }

  /**
   * The `while True` loop of `get_new_matches`. `requested` lists the offsets
   * of the page requests made, in order. The watermark ends the scan (the
   * `break` of the inner loop skips the `else`, and the outer `break`
   * follows); finishing a page without it moves the offset on by ten.
   */
  method GetNewMatches(history: seq<Page>, hubName: string, last: LastField)
    returns (r: Result<seq<Match>, DiscoveryError>, requested: seq<nat>)
    ensures r == Scan(history, hubName, last)
    ensures forall j :: 0 <= j < |requested| ==> requested[j] == j * PageSize
    ensures 0 < |requested| <= StopPage(history, last) + 1
    ensures r != Err(NoDemoUrl) ==> |requested| == StopPage(history, last) + 1
  {
    ghost var s := StopPage(history, last);
    var newMatches: seq<Match> := [];
    var offset: nat := 0;
    requested := [];
    PrependNothing(Scan(history, hubName, last));
    while true
      invariant |requested| <= s && offset == |requested| * PageSize
      invariant forall j :: 0 <= j < |requested| ==> requested[j] == j * PageSize
      invariant Scan(history, hubName, last)
                == Prepend(ScanFrom(history, hubName, last, |requested|), newMatches)
      decreases s - |requested|
    {
      ghost var k := |requested|;
      requested := requested + [offset];
      assert offset / PageSize == k;
      var page := PageAt(history, offset / PageSize);
      if page.HttpError? {
        StopPageReached(history, last, k);
        r := Err(PageFailed(page.status));
        return;
      }
      var matches := page.items;
      if matches == [] {
        StopPageReached(history, last, k);
        assert [] + newMatches == newMatches;
        break;
      }
      ghost var older := newMatches;
      var end;
      end, newMatches := ScanPage(matches, hubName, last, newMatches);
      ScanItemsEnd(matches, hubName, last);
      match end
      case Raised(e) =>
        if e == MissingLast {
          StopPageReached(history, last, k);
        }
        r := Err(e);
        return;
      case WatermarkMet =>
        StopPageReached(history, last, k);
        break;
      case Exhausted =>
        PrependTwice(ScanFrom(history, hubName, last, k + 1), ScanItems(matches, hubName, last).found, older);
        assert !StopsAt(page, last);
        offset := offset + PageSize;
    }
    r := Ok(newMatches);
  }

  // ---------------------------------------------------------------------------
  // Lemmas behind the scan

  /**
   * Why the loop over a page ends: it runs past the last item exactly when no
   * item ends the scan and every finished one has a demo URL; it meets the
   * watermark only if the page lists it; it raises `KeyError` exactly when
   * `last` is missing and the page is not empty; and it raises `IndexError`
   * only on a finished item without demo URLs.
   */
  lemma {:induction false} ScanItemsEnd(items: seq<Item>, hubName: string, last: LastField)
    ensures var r := ScanItems(items, hubName, last);
            && (r.end.Exhausted? <==> forall it :: it in items ==> !EndsScan(it, last) && HasDemo(it))
            && (r.end.WatermarkMet? ==> exists it :: it in items && last == Last(it.matchId))
            && (r.end == Raised(MissingLast) <==> last.Absent? && items != [])
            && (r.end == Raised(NoDemoUrl) ==>
                  exists it :: it in items && IsFinished(it) && it.demoUrls == [])
            && (r.end.Raised? ==> r.end.error in {MissingLast, NoDemoUrl})
  {
    if items != [] {
      assert items[0] in items;
      ScanItemsEnd(items[1..], hubName, last);
      assert forall it :: it in items <==> it == items[0] || it in items[1..];
    }
  }

  /** A page at or before the stop page on which the scan stops is the stop page. */
  lemma StopPageReached(history: seq<Page>, last: LastField, k: nat)
    requires k <= StopPage(history, last) && StopsAt(PageAt(history, k), last)
    ensures StopPage(history, last) == k
  {
  }

  /** Nothing appended to a result leaves it as it was. */
  lemma PrependNothing(r: Result<seq<Match>, DiscoveryError>)
    ensures Prepend(r, []) == r
  {
    if r.Ok? {
      assert r.value + [] == r.value;
    }
  }

  /** Appending `a` and then `b` is appending `a + b`. */
  lemma PrependTwice(r: Result<seq<Match>, DiscoveryError>, a: seq<Match>, b: seq<Match>)
    ensures Prepend(Prepend(r, a), b) == Prepend(r, a + b)
  {
    if r.Ok? {
      assert r.value + a + b == r.value + (a + b);
    }
  }

  /** A page whose first `i` items pass and whose item `i` ends the scan keeps exactly those `i`. */
  lemma UntilWatermarkAt(items: seq<Item>, last: LastField, i: nat)
    requires i < |items| && EndsScan(items[i], last)
    requires forall j :: 0 <= j < i ==> !EndsScan(items[j], last)
    ensures UntilWatermark(items, last) == items[..i]
  {
    var r := UntilWatermark(items, last);
    assert |r| == i;
  }

  lemma {:induction false} ItemsOfEarlierPage(history: seq<Page>, k: nat, n: nat)
    requires k < n
    ensures forall it :: it in PageItems(history, k) ==> it in ItemsBefore(history, n)
  {
    if k < n - 1 {
      ItemsOfEarlierPage(history, k, n - 1);
    }
  }

  /** Pages that let the scan go on list nothing that ends it. */
  lemma {:induction false} ItemsBeforePass(history: seq<Page>, last: LastField, n: nat)
    requires forall j :: 0 <= j < n ==> !StopsAt(PageAt(history, j), last)
    ensures forall it :: it in ItemsBefore(history, n) ==> !EndsScan(it, last)
  {
    if n > 0 {
      ItemsBeforePass(history, last, n - 1);
    }
  }

  /** The scan compares nothing with `last` that ends it, except the item where it stops. */
  lemma ScannedPass(history: seq<Page>, last: LastField)
    ensures forall it :: it in Scanned(history, last) ==> !EndsScan(it, last)
  {
    ItemsBeforePass(history, last, StopPage(history, last));
  }

  /**
   * Newer items put their matches after those of older items: the matches of
   * `newer + older` are those of `older` followed by those of `newer`.
   */
  lemma {:induction false} ChronologicalConcat(newer: seq<Item>, older: seq<Item>, hubName: string)
    requires AllHaveDemo(newer) && AllHaveDemo(older)
    ensures AllHaveDemo(newer + older)
    ensures Chronological(newer + older, hubName)
            == Chronological(older, hubName) + Chronological(newer, hubName)
  {
    if newer == [] {
      assert newer + older == older;
    } else {
      assert (newer + older)[1..] == newer[1..] + older;
      assert newer[0] in newer;
      ChronologicalConcat(newer[1..], older, hubName);
    }
  }

  /**
   * The result is the finished items in reverse API order: its `i`-th match,
   * counting from the oldest, is the `i`-th finished item counting from the
   * end of the API's listing.
   */
  lemma {:induction false} ChronologicalReversesApiOrder(items: seq<Item>, hubName: string)
    requires AllHaveDemo(items)
    ensures var fin := FinishedOnly(items);
            && |Chronological(items, hubName)| == |fin|
            && forall i :: 0 <= i < |fin| ==>
                 (fin[|fin| - 1 - i].demoUrls != [] &&
                  Chronological(items, hubName)[i] == ToMatch(fin[|fin| - 1 - i], hubName))
  {
    if items != [] {
      var rest := items[1..];
      ChronologicalReversesApiOrder(rest, hubName);
      var fin, fin' := FinishedOnly(items), FinishedOnly(rest);
      if IsFinished(items[0]) {
        assert fin == [items[0]] + fin';
        assert items[0] in items;
        assert Chronological(items, hubName) == Chronological(rest, hubName) + [ToMatch(items[0], hubName)];
      } else {
        assert fin == fin';
      }
    }
  }

  /** A match is in the result exactly when a finished item of the input describes it. */
  lemma {:induction false} ChronologicalMembers(items: seq<Item>, hubName: string, m: Match)
    requires AllHaveDemo(items)
    ensures m in Chronological(items, hubName) <==>
            exists it :: it in items && IsFinished(it) && it.demoUrls != [] && m == ToMatch(it, hubName)
  {
    if items != [] {
      ChronologicalMembers(items[1..], hubName, m);
      assert forall it :: it in items <==> it == items[0] || it in items[1..];
      if IsFinished(items[0]) {
        assert items[0] in items;
        assert Chronological(items, hubName)
               == Chronological(items[1..], hubName) + [ToMatch(items[0], hubName)];
      }
    }
  }

  // ---------------------------------------------------------------------------
  // The scan page by page is the closed form

  /** A page on which nothing ends the scan is scanned whole, unless a finished item has no demo URL. */
  lemma {:induction false} ScanItemsPass(items: seq<Item>, hubName: string, last: LastField)
    requires forall it :: it in items ==> !EndsScan(it, last)
    ensures ScanItems(items, hubName, last).end == if AllHaveDemo(items) then Exhausted else Raised(NoDemoUrl)
    ensures AllHaveDemo(items) ==> ScanItems(items, hubName, last).found == Chronological(items, hubName)
  {
    if items != [] {
      assert items[0] in items;
      var rest := items[1..];
      assert forall it :: it in rest ==> it in items;
      ScanItemsPass(rest, hubName, last);
      assert forall it :: it in items ==> it == items[0] || it in rest;
    }
  }

  /** A page on which something ends the scan is scanned up to that item. */
  lemma {:induction false} ScanItemsStop(items: seq<Item>, hubName: string, last: LastField)
    requires |UntilWatermark(items, last)| < |items|
    ensures var seen := UntilWatermark(items, last);
            ScanItems(items, hubName, last).end
            == if !AllHaveDemo(seen) then Raised(NoDemoUrl)
               else if last.Absent? then Raised(MissingLast)
               else WatermarkMet
    ensures var seen := UntilWatermark(items, last);
            AllHaveDemo(seen) ==> ScanItems(items, hubName, last).found == Chronological(seen, hubName)
  {
    if !EndsScan(items[0], last) {
      var rest := items[1..];
      var seen := UntilWatermark(items, last);
      assert seen == [items[0]] + UntilWatermark(rest, last);
      assert seen[1..] == UntilWatermark(rest, last);
      assert seen[0] in seen;
      ScanItemsStop(rest, hubName, last);
      assert forall it :: it in seen ==> it == items[0] || it in UntilWatermark(rest, last);
    }
  }

  /**
   * On the stop page, the closed form is the scan of that page with the
   * matches of the earlier pages added as the newest.
   */
  lemma ScanAtStopPage(history: seq<Page>, hubName: string, last: LastField)
    ensures var before := ItemsBefore(history, StopPage(history, last));
            Discover(history, hubName, last)
            == if !AllHaveDemo(before) then Err(NoDemoUrl)
               else Prepend(ScanFrom(history, hubName, last, StopPage(history, last)),
                            Chronological(before, hubName))
  {
    var k := StopPage(history, last);
    var before := ItemsBefore(history, k);
    var seen := Scanned(history, last);
    var page := PageItems(history, k);
    var u := UntilWatermark(page, last);
    assert seen == before + u;
    if AllHaveDemo(before) && AllHaveDemo(u) {
      ChronologicalConcat(before, u, hubName);
    }
    if PageAt(history, k).Items? && page != [] {
      assert |u| < |page| by {
        if !last.Absent? {
          var it :| it in page && last == Last(it.matchId);
          assert it !in u;
          assert page[..|page|] == page;
        } else {
          assert EndsScan(page[0], last);
        }
      }
      ScanItemsStop(page, hubName, last);
    } else {
      assert u == [];
      assert seen == before;
    }
  }

  /** A page before the stop page is scanned whole, and the scan goes on to the next page. */
  lemma ScanPassesPage(history: seq<Page>, hubName: string, last: LastField, k: nat)
    requires k < StopPage(history, last)
    ensures var page := PageItems(history, k);
            ScanFrom(history, hubName, last, k)
            == if AllHaveDemo(page)
               then Prepend(ScanFrom(history, hubName, last, k + 1), Chronological(page, hubName))
               else Err(NoDemoUrl)
  {
    var page := PageItems(history, k);
    assert !StopsAt(PageAt(history, k), last);
    assert forall it :: it in page ==> !EndsScan(it, last);
    ScanItemsPass(page, hubName, last);
  }

  /**
   * Up to the stop page, the closed form is the scan from page `k` on with
   * the matches of the earlier pages added as the newest.
   */
  lemma {:induction false} ScanResumes(history: seq<Page>, hubName: string, last: LastField, k: nat)
    requires k <= StopPage(history, last)
    decreases StopPage(history, last) - k
    ensures var before := ItemsBefore(history, k);
            Discover(history, hubName, last)
            == if !AllHaveDemo(before) then Err(NoDemoUrl)
               else Prepend(ScanFrom(history, hubName, last, k), Chronological(before, hubName))
  {
    if k == StopPage(history, last) {
      ScanAtStopPage(history, hubName, last);
    } else {
      var before := ItemsBefore(history, k);
      var page := PageItems(history, k);
      ScanResumes(history, hubName, last, k + 1);
      ScanPassesPage(history, hubName, last, k);
      assert ItemsBefore(history, k + 1) == before + page;
      if AllHaveDemo(before) && AllHaveDemo(page) {
        ChronologicalConcat(before, page, hubName);
        PrependTwice(ScanFrom(history, hubName, last, k + 1),
                     Chronological(page, hubName), Chronological(before, hubName));
      }
    }
  }

  /** The page-by-page scan and the closed form agree on every history. */
  lemma ScanIsDiscover(history: seq<Page>, hubName: string, last: LastField)
    ensures Scan(history, hubName, last) == Discover(history, hubName, last)
  {
    ScanResumes(history, hubName, last, 0);
    PrependNothing(Scan(history, hubName, last));
  }

  // ---------------------------------------------------------------------------
  // What discovery promises

  /** The watermark match itself is never returned. */
  lemma DiscoverExcludesWatermark(history: seq<Page>, hubName: string, w: string)
    ensures Discover(history, hubName, Last(w)).Ok? ==>
            forall m :: m in Discover(history, hubName, Last(w)).value ==> m.id != w
  {
    var seen := Scanned(history, Last(w));
    ScannedPass(history, Last(w));
    if Discover(history, hubName, Last(w)).Ok? {
      forall m | m in Discover(history, hubName, Last(w)).value
        ensures m.id != w
      {
        ChronologicalMembers(seen, hubName, m);
        var it :| it in seen && IsFinished(it) && it.demoUrls != [] && m == ToMatch(it, hubName);
        assert !EndsScan(it, Last(w));
      }
    }
  }

  /** Every returned match is the match of a finished item the API listed. */
  lemma DiscoverOnlyFinished(history: seq<Page>, hubName: string, last: LastField, m: Match)
    requires Discover(history, hubName, last).Ok? && m in Discover(history, hubName, last).value
    ensures exists it :: it in ItemsBefore(history, StopPage(history, last) + 1) && IsFinished(it) &&
                         it.demoUrls != [] && m == ToMatch(it, hubName)
  {
    var s := StopPage(history, last);
    var seen := Scanned(history, last);
    ChronologicalMembers(seen, hubName, m);
    var it :| it in seen && IsFinished(it) && it.demoUrls != [] && m == ToMatch(it, hubName);
    var page := UntilWatermark(PageItems(history, s), last);
    assert seen == ItemsBefore(history, s) + page;
    assert it in ItemsBefore(history, s) || it in page;
    if it in page {
      assert it in PageItems(history, s);
    }
    ItemsOfEarlierPage(history, s, s + 1);
    assert it in ItemsBefore(history, s + 1);
  }

  /** `StopPage` is the page `p` when every page before `p` lets the scan go on and `p` stops it. */
  lemma StopPageIs(history: seq<Page>, last: LastField, p: nat)
    requires StopsAt(PageAt(history, p), last)
    requires forall j :: 0 <= j < p ==> !StopsAt(PageAt(history, j), last)
    ensures StopPage(history, last) == p
  {
  }

  /**
   * The watermark `w` is first listed as item `j` of page `p`, and every page
   * before `p` was a non-empty 2xx page: pages `0 .. p` are requested, unless
   * a finished item without a demo URL raises first, and the result is the
   * finished matches listed before `w`, oldest first, or that `IndexError`.
   */
  lemma DiscoverFindsWatermark(history: seq<Page>, hubName: string, w: string, p: nat, j: nat)
    requires p < |history| && history[p].Items? && j < |history[p].items|
    requires history[p].items[j].matchId == w
    requires forall i :: 0 <= i < j ==> history[p].items[i].matchId != w
    requires forall q :: 0 <= q < p ==> history[q].Items? && history[q].items != []
    requires forall it :: it in ItemsBefore(history, p) ==> it.matchId != w
    ensures StopPage(history, Last(w)) == p
    ensures var newer := ItemsBefore(history, p) + history[p].items[..j];
            Discover(history, hubName, Last(w))
            == if AllHaveDemo(newer) then Ok(Chronological(newer, hubName)) else Err(NoDemoUrl)
  {
    var last := Last(w);
    assert history[p].items[j] in history[p].items;
    forall q | 0 <= q < p
      ensures !StopsAt(PageAt(history, q), last)
    {
      ItemsOfEarlierPage(history, q, p);
      assert forall it :: it in PageItems(history, q) ==> !EndsScan(it, last);
    }
    StopPageIs(history, last, p);
    UntilWatermarkAt(history[p].items, last, j);
  }

  /**
   * No 2xx page before the first empty one lists the watermark (or there is
   * none): every page up to that empty one is requested, unless a finished
   * item without a demo URL raises first, and the result is all finished
   * matches on them, oldest first, or that `IndexError`.
   */
  lemma DiscoverWithoutWatermark(history: seq<Page>, hubName: string, last: LastField, e: nat)
    requires !last.Absent?
    requires PageAt(history, e) == Items([])
    requires forall q :: 0 <= q < e ==> q < |history| && history[q].Items? && history[q].items != []
    requires forall it :: it in ItemsBefore(history, e) ==> last != Last(it.matchId)
    ensures StopPage(history, last) == e
    ensures var all := ItemsBefore(history, e);
            Discover(history, hubName, last)
            == if AllHaveDemo(all) then Ok(Chronological(all, hubName)) else Err(NoDemoUrl)
  {
    forall q | 0 <= q < e
      ensures !StopsAt(PageAt(history, q), last)
    {
      ItemsOfEarlierPage(history, q, e);
      assert forall it :: it in PageItems(history, q) ==> !EndsScan(it, last);
    }
    StopPageIs(history, last, e);
    assert Scanned(history, last) == ItemsBefore(history, e);
  }

  /** A rejected page reached by the scan makes discovery raise: no partial list is returned. */
  lemma DiscoverPageFailure(history: seq<Page>, hubName: string, last: LastField, p: nat)
    requires p < |history| && history[p].HttpError?
    requires forall q :: 0 <= q < p ==> !StopsAt(PageAt(history, q), last)
    ensures StopPage(history, last) == p
    ensures Discover(history, hubName, last)
            == if AllHaveDemo(ItemsBefore(history, p)) then Err(PageFailed(history[p].status))
               else Err(NoDemoUrl)
  {
    StopPageIs(history, last, p);
    assert Scanned(history, last) == ItemsBefore(history, p);
  }

  /** A hub record without `last`: only the first page is requested, and a non-empty one raises. */
  lemma DiscoverMissingLast(history: seq<Page>, hubName: string)
    ensures StopPage(history, Absent) == 0
    ensures Discover(history, hubName, Absent)
            == if PageAt(history, 0).HttpError? then Err(PageFailed(PageAt(history, 0).status))
               else if PageAt(history, 0).items == [] then Ok([])
               else Err(MissingLast)
  {
    StopPageIs(history, Absent, 0);
    assert Scanned(history, Absent) == [];
  }

  // ---------------------------------------------------------------------------
  // Resuming from the watermark

  /** No two items of `items` share a match id. */
  predicate DistinctIds(items: seq<Item>) {
    forall i, j :: 0 <= i < j < |items| ==> items[i].matchId != items[j].matchId
  }

  /** The items of the first `a` pages begin the items of the first `b`. */
  lemma {:induction false} ItemsBeforePrefix(history: seq<Page>, a: nat, b: nat)
    requires a <= b
    ensures |ItemsBefore(history, a)| <= |ItemsBefore(history, b)|
    ensures ItemsBefore(history, a) == ItemsBefore(history, b)[..|ItemsBefore(history, a)|]
  {
    if a < b {
      ItemsBeforePrefix(history, a, b - 1);
      var prefix, shorter := ItemsBefore(history, a), ItemsBefore(history, b - 1);
      assert ItemsBefore(history, b) == shorter + PageItems(history, b - 1);
      assert (shorter + PageItems(history, b - 1))[..|prefix|] == shorter[..|prefix|];
    }
  }

  /** Position `p` among the items of the first `n` pages lies on one page `q < n`. */
  lemma {:induction false} PageOfPosition(history: seq<Page>, n: nat, p: nat) returns (q: nat)
    requires p < |ItemsBefore(history, n)|
    ensures q < n
    ensures |ItemsBefore(history, q)| <= p < |ItemsBefore(history, q)| + |PageItems(history, q)|
    ensures ItemsBefore(history, q + 1) == ItemsBefore(history, q) + PageItems(history, q)
  {
    if p < |ItemsBefore(history, n - 1)| {
      q := PageOfPosition(history, n - 1, p);
    } else {
      q := n - 1;
    }
  }

  /**
   * Match `k - 1` of the result, oldest first, comes from item `p`, and the
   * matches after it are exactly those of the items the API lists before `p`.
   */
  lemma {:induction false} ChronologicalSplit(items: seq<Item>, hubName: string, k: nat) returns (p: nat)
    requires AllHaveDemo(items)
    requires 0 < k <= |Chronological(items, hubName)|
    ensures p < |items| && IsFinished(items[p]) && items[p].demoUrls != []
    ensures Chronological(items, hubName)[k - 1] == ToMatch(items[p], hubName)
    ensures AllHaveDemo(items[..p])
    ensures Chronological(items[..p], hubName) == Chronological(items, hubName)[k..]
  {
    var rest := items[1..];
    assert forall it :: it in rest ==> it in items;
    assert items[0] in items;
    var older := Chronological(rest, hubName);
    if k <= |older| {
      var p' := ChronologicalSplit(rest, hubName, k);
      p := p' + 1;
      assert items[..p][1..] == rest[..p'];
      assert forall it :: it in items[..p] ==> it in items;
      if IsFinished(items[0]) {
        assert Chronological(items[..p], hubName)
               == Chronological(rest[..p'], hubName) + [ToMatch(items[0], hubName)];
      }
    } else {
      p := 0;
      assert items[..0] == [];
    }
  }

  /** Position `p` among the items of the first `n` pages is item `j` of a 2xx page `q`. */
  lemma PositionOnPage(history: seq<Page>, n: nat, p: nat) returns (q: nat, j: nat)
    requires p < |ItemsBefore(history, n)|
    ensures q < n && q < |history| && history[q].Items? && j < |history[q].items|
    ensures |ItemsBefore(history, q)| + j == p
    ensures history[q].items[j] == ItemsBefore(history, n)[p]
    ensures forall i :: 0 <= i < j ==>
              history[q].items[i] == ItemsBefore(history, n)[|ItemsBefore(history, q)| + i]
    ensures ItemsBefore(history, q) + history[q].items[..j] == ItemsBefore(history, n)[..p]
  {
    var all := ItemsBefore(history, n);
    q := PageOfPosition(history, n, p);
    var before := ItemsBefore(history, q);
    var items := PageItems(history, q);
    j := p - |before|;
    ItemsBeforePrefix(history, q + 1, n);
    var upTo := ItemsBefore(history, q + 1);
    assert upTo == all[..|upTo|];
    assert upTo[p] == items[j];
    forall i | 0 <= i < j
      ensures items[i] == all[|before| + i]
    {
      assert items[i] == upTo[|before| + i];
    }
    assert before + items[..j] == upTo[..p];
  }

  /**
   * With `last` moved to the id of item `p` among the items of the first `n`
   * pages, all but the last of them non-empty 2xx pages, discovery covers
   * exactly the items listed before `p`.
   */
  lemma DiscoverStopsAtPosition(history: seq<Page>, hubName: string, n: nat, p: nat)
    requires p < |ItemsBefore(history, n)|
    requires DistinctIds(ItemsBefore(history, n))
    requires forall r :: 0 <= r < n - 1 ==> PageAt(history, r).Items? && PageAt(history, r).items != []
    ensures var all := ItemsBefore(history, n);
            Discover(history, hubName, Last(all[p].matchId))
            == if AllHaveDemo(all[..p]) then Ok(Chronological(all[..p], hubName)) else Err(NoDemoUrl)
  {
    var all := ItemsBefore(history, n);
    var w := all[p].matchId;
    var q, j := PositionOnPage(history, n, p);
    var before := ItemsBefore(history, q);
    ItemsBeforePrefix(history, q, n);
    forall it | it in before
      ensures it.matchId != w
    {
      var x :| 0 <= x < |before| && before[x] == it;
      assert all[x] == it;
    }
    forall r | 0 <= r < q
      ensures history[r].Items? && history[r].items != []
    {
      assert PageAt(history, r).Items?;
    }
    DiscoverFindsWatermark(history, hubName, w, q, j);
  }

  /** The scanned items begin the items of the pages up to the stop page. */
  lemma ScannedIsPrefix(history: seq<Page>, last: LastField)
    ensures var all := ItemsBefore(history, StopPage(history, last) + 1);
            |Scanned(history, last)| <= |all| && Scanned(history, last) == all[..|Scanned(history, last)|]
  {
    var s := StopPage(history, last);
    var page := PageItems(history, s);
    assert ItemsBefore(history, s + 1) == ItemsBefore(history, s) + page;
    assert UntilWatermark(page, last) == page[..|UntilWatermark(page, last)|];
  }

  /** Every page before the stop page is a non-empty 2xx page. */
  lemma PagesBeforeStopListItems(history: seq<Page>, last: LastField)
    ensures forall r :: 0 <= r < StopPage(history, last) ==>
              PageAt(history, r).Items? && PageAt(history, r).items != []
  {
  }

  /**
   * With `last` moved to the id of scanned item `p`, the scan stops on that
   * item: discovery covers exactly the items listed before it.
   */
  lemma DiscoverFromScannedItem(history: seq<Page>, hubName: string, last: LastField, p: nat)
    requires p < |Scanned(history, last)|
    requires DistinctIds(ItemsBefore(history, StopPage(history, last) + 1))
    ensures var seen := Scanned(history, last);
            Discover(history, hubName, Last(seen[p].matchId))
            == if AllHaveDemo(seen[..p]) then Ok(Chronological(seen[..p], hubName)) else Err(NoDemoUrl)
  {
    var s := StopPage(history, last);
    var seen := Scanned(history, last);
    var all := ItemsBefore(history, s + 1);
    ScannedIsPrefix(history, last);
    PagesBeforeStopListItems(history, last);
    DiscoverStopsAtPosition(history, hubName, s + 1, p);
    assert seen[p] == all[p];
    assert seen[..p] == all[..p];
  }

  /**
   * Resuming from a returned match: once `last` is the id of match `k - 1` of
   * a successful discovery, oldest first, discovery on the same pages returns
   * exactly the matches after it. None of the first `k` is found again and
   * none after them is skipped. Match ids are taken to be distinct among the
   * items on the pages the first discovery requested.
   */
  lemma DiscoverResumes(history: seq<Page>, hubName: string, last: LastField, k: nat)
    requires Discover(history, hubName, last).Ok?
    requires 0 < k <= |Discover(history, hubName, last).value|
    requires DistinctIds(ItemsBefore(history, StopPage(history, last) + 1))
    ensures Discover(history, hubName, Last(Discover(history, hubName, last).value[k - 1].id))
            == Ok(Discover(history, hubName, last).value[k..])
  {
    var seen := Scanned(history, last);
    var p := ChronologicalSplit(seen, hubName, k);
    DiscoverFromScannedItem(history, hubName, last, p);
  }
}
