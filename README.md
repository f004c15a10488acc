# to-demostf uploader, modelled in Dafny

The script `upload.py` keeps one watermark per FACEIT match hub. For each hub
it does three things:

1. It pages newest-first through the hub's past matches, ten per request,
   until it reaches the stored watermark (`last`) or an empty page.
2. It takes the finished matches it passed and puts them in oldest-first
   order.
3. For each of those matches it downloads the gzipped demo and overwrites the
   260-byte header field at offset 16 with the hub's branding. It then posts
   the demo to demos.tf under the name
   `https://faceit.com/en//room/<match id>.dem` and moves the hub's `last` to
   that match.

Anything that raises while a hub is being processed abandons the rest of that
hub only.

The model has five modules:

- `Wrappers` (`wrappers.dfy`): `Option`, `Result` and `Outcome`. They stand in
  for the exceptions.
- `MatchDiscovery` (`discovery.dfy`) models `get_new_matches`:
  - The hub's API is a sequence of pages. Page `k` is what the request with
    offset `10 * k` answers, and every request past the end gets an empty
    page.
  - The `while True` loop is the method `GetNewMatches`, proved equal to the
    page-by-page function `Scan`. The inner `for … else` loop over one page is
    the method `ScanPage`, proved against the one-page function `ScanItems`.
  - `Scan` is proved equal to the closed form `Discover`: every page before
    the stop page, plus the stop page's items up to the watermark, keeping
    the finished ones in reverse order.
  - The properties of discovery are proved about `Discover`.
- `DemoPatcher` (`patcher.dfy`) models the header patch:
  - `PatchDemo` is the patch on values.
  - `PatchHeader` is the in-place write into a byte array.
  - Two failures are modelled: a non-ASCII hub name (`str.encode('ascii')`)
    and a demo shorter than 276 bytes (the slice assignment of a different
    length).
- `DemoUploader` (`uploader.dfy`) models `upload_match`: download, patch, and
  the posted form with its upload name.
- `RunOrchestrator` (`orchestrator.dfy`) models `main`'s loop over the hub
  records:
  - Hub records are objects whose `last` field the run rewrites in place.
  - `RunOnce` is proved equal to the value-level `Run`.

The network is three parameters:

- the pages each hub id answers;
- the decompressed demo behind a URL, or `None` when the download or the
  gunzip raises;
- whether a post returns a response at all.

## Model

| member | source | states |
|---|---|---|
| MatchDiscovery.GetNewMatches | upload.py:24-63 | The result, or the exception raised, is exactly the page-by-page scan `Scan`. The requested offsets are 0, 10, 20, … in order. No request is made after the stop page, the page with an HTTP failure, an empty page, the watermark or a missing `last`. Every page up to the stop page is requested unless a finished item without a demo URL raises `IndexError` first. |
| MatchDiscovery.ScanPage | upload.py:45-58 | The inner loop over one page ends the way `ScanItems` says: past the last item, at the watermark, or raising. When it does not raise, the page's finished matches, oldest first, are put in front of the matches from the earlier pages (`appendleft`). |
| MatchDiscovery.ScanItemsEnd | upload.py:45-58 | The loop over a page runs off its end exactly when no item is the watermark and every finished item has a demo URL. It stops at the watermark only if the page lists it. It raises `KeyError` exactly when `last` is missing and the page is not empty. It raises `IndexError` only on a finished item without demo URLs. |
| MatchDiscovery.Discover | upload.py:24-63 | Closed form of `get_new_matches`. It scans every page before the stop page and the stop page's items before the one that ends the scan. It raises `IndexError` if a scanned finished item has no demo URL. Otherwise it raises on a rejected stop page, or `KeyError` on a non-empty stop page when `last` is missing. Otherwise it returns the scanned finished items as matches, oldest first. |
| MatchDiscovery.ScanItems | upload.py:45-58 | Definition of the loop over one page's items. It raises on a missing `last` or on a finished item without demo URLs and stops at the watermark. Otherwise it puts each finished item's match in front of those found before it. |
| MatchDiscovery.ScanFrom | upload.py:28-62 | Definition of the paging loop from page `k` on. A rejected page raises, an empty page ends it, and the loop over the items decides whether it raises, stops or goes on to page `k + 1`. The later pages' matches come first in the result, as the older ones. |
| MatchDiscovery.Scan | upload.py:24-63 | Definition of `get_new_matches` page by page: the paging loop from offset 0. |
| MatchDiscovery.Chronological | upload.py:49-58 | Definition of the `appendleft` order: the finished items of an API listing as matches, the first item's match last. |
| MatchDiscovery.ToMatch | upload.py:51-57 | Definition of the `Match` built from a finished item: its id, the hub's name, its first demo URL (`demo_url[0]`, which needs a non-empty list) and the two faction names. |
| MatchDiscovery.Scanned | upload.py:45-48 | Definition of the items the scan compares with `last`, in API order: every item of the pages before the stop page, then the stop page's items before the one that ends the scan. |
| MatchDiscovery.StopFrom | upload.py:28-62 | Gives the first page at or after `k` that ends the requests: a rejected page, an empty page, a missing `last`, or a page listing the watermark. |
| MatchDiscovery.StopPage | upload.py:28-62 | The page the scan stops on. It is a stop page and no earlier page is one. It is the last page requested unless an `IndexError` is raised first. |
| MatchDiscovery.StopPageReached | upload.py:42-48 | A stop page reached at or before the stop page is the stop page. |
| MatchDiscovery.StopPageIs | upload.py:28-62 | The stop page is determined by the first page that stops the scan. |
| MatchDiscovery.UntilWatermark | upload.py:45-48 | Gives the prefix of a page's items before the first one whose comparison with `last` ends the loop. None of that prefix ends it, and the next item does. |
| MatchDiscovery.UntilWatermarkAt | upload.py:45-48 | If item `i` is the first that ends the loop, exactly the first `i` items are scanned. |
| MatchDiscovery.FinishedOnly | upload.py:49 | Every kept item is finished and is one of the input items. |
| MatchDiscovery.ItemsOfEarlierPage | upload.py:28-60 | Every item of a page before page `n` is among the items of the first `n` pages. |
| MatchDiscovery.ItemsBeforePass | upload.py:45-48 | Pages that let the scan go on list no item that ends it. |
| MatchDiscovery.ScannedPass | upload.py:45-48 | No scanned item is the watermark, and none is compared with a missing `last`. |
| MatchDiscovery.ChronologicalConcat | upload.py:50-58 | The matches of the newer items come after those of the older items (`appendleft` across pages). |
| MatchDiscovery.ChronologicalReversesApiOrder | upload.py:49-58 | The result has one match per finished item. Its `i`-th match, oldest first, is built from the `i`-th finished item counted from the end of the API's newest-first listing. |
| MatchDiscovery.ChronologicalMembers | upload.py:49-58 | A match is in the result exactly when a finished item with a demo URL describes it. |
| MatchDiscovery.ScanItemsPass | upload.py:45-61 | A page with no watermark and no missing `last` is scanned whole. Its result is its finished matches, oldest first, unless a finished item has no demo URL. |
| MatchDiscovery.ScanItemsStop | upload.py:45-58 | A page with an item that ends the scan is scanned up to that item. The loop raises on a missing `last`, stops at the watermark, and raises on an earlier finished item without a demo URL. |
| MatchDiscovery.ScanAtStopPage | upload.py:39-58 | On the stop page, the closed form equals the scan of that page with the earlier pages' matches added as the newest. |
| MatchDiscovery.ScanPassesPage | upload.py:45-61 | A page before the stop page is scanned whole, and the offset moves on to the next page. |
| MatchDiscovery.ScanResumes | upload.py:28-62 | From any page up to the stop page, the closed form equals the scan from there on, with the earlier pages' matches added as the newest. |
| MatchDiscovery.ScanIsDiscover | upload.py:24-63 | The page-by-page scan and the closed form agree on every history, hub and `last`. |
| MatchDiscovery.DiscoverExcludesWatermark | upload.py:46-48 | The match whose id is `last` is never returned. |
| MatchDiscovery.DiscoverOnlyFinished | upload.py:49-58 | Every returned match is built from a FINISHED item, with a demo URL, on a page the scan requested. |
| MatchDiscovery.DiscoverFindsWatermark | upload.py:42-62 | Suppose the watermark first appears as item `j` of page `p`, after non-empty pages. Then pages `0..p` are requested, unless a finished item without a demo URL raises first. The result is the finished matches listed before it, oldest first, or the `IndexError` of one without a demo URL. |
| MatchDiscovery.DiscoverWithoutWatermark | upload.py:42-44 | When no page before the first empty one lists the watermark, every page up to the empty one is requested, unless a finished item without a demo URL raises first. The result is all their finished matches, oldest first, or the `IndexError` of one without a demo URL. |
| MatchDiscovery.DiscoverPageFailure | upload.py:39 | A rejected page reached by the scan makes discovery raise, with no partial list. |
| MatchDiscovery.DiscoverMissingLast | upload.py:42-46 | A hub record without `last` gets one request. It returns nothing for an empty page and raises `KeyError` for a non-empty one. |
| DemoPatcher.BrandingText | upload.py:74 | Definition of the branding text `TF2PL.com <hub name>, powered by FACEIT.com`. |
| MatchDiscovery.ItemsBeforePrefix | upload.py:28-60 | The items of the first `a` pages are a prefix of the items of the first `b` pages, for `a <= b`. |
| MatchDiscovery.PageOfPosition | upload.py:28-60 | Any position among the items of the first `n` pages falls on one page before `n`. |
| MatchDiscovery.PositionOnPage | upload.py:28-60 | That position is an item `j` of a 2xx page `q`. Page `q`'s items before `j`, after the earlier pages' items, are exactly the items before that position. |
| MatchDiscovery.ChronologicalSplit | upload.py:49-58 | Match `k - 1` of the result, oldest first, comes from a finished item `p`. The matches after it are exactly those of the items listed before `p`. |
| MatchDiscovery.ScannedIsPrefix | upload.py:42-48 | The scanned items are a prefix of the items on the pages up to the stop page. |
| MatchDiscovery.PagesBeforeStopListItems | upload.py:39-44 | Every page before the stop page answered 2xx with at least one item. |
| MatchDiscovery.DiscoverStopsAtPosition | upload.py:42-62 | With `last` set to the id of an item on the first `n` pages, where all but the last page are non-empty 2xx pages and ids are distinct, discovery covers exactly the items listed before it. |
| MatchDiscovery.DiscoverFromScannedItem | upload.py:42-62 | With `last` set to the id of a scanned item, discovery stops on that item. It returns the matches of the items listed before it, or raises `IndexError` on one of them. |
| MatchDiscovery.DiscoverResumes | upload.py:42-62 | With `last` moved to the id of match `k - 1` of a successful discovery, discovery on the same pages returns exactly the matches after it. None of the first `k` comes back and none after them is skipped. Match ids are assumed distinct. |
| DemoPatcher.EncodeAscii | upload.py:74 | Encoding succeeds exactly on ASCII text and gives one byte per character, with the character's code. Otherwise it fails with `NotAscii`. |
| DemoPatcher.BrandingAscii | upload.py:74 | The branding text is ASCII exactly when the hub name is. |
| DemoPatcher.BrandingField | upload.py:74 | The written field is 260 bytes long: the branding text's bytes, then NULs. It fails exactly when the hub name is not ASCII. |
| DemoPatcher.Overwrite | upload.py:74 | The slice assignment of an equal-length field keeps the length. It replaces bytes 16..275 and keeps every other byte. |
| DemoPatcher.PatchDemo | upload.py:73-74 | Patching succeeds exactly on an ASCII hub name and a demo of at least 276 bytes. The name is checked first. The result has the same length, holds the branding (NUL-padded or cut) in bytes 16..275, and keeps every other byte. |
| DemoPatcher.PatchTruncates | upload.py:74 | A branding text of 260 characters or more is cut to its first 260 bytes, without an error. |
| DemoPatcher.PatchHeader | upload.py:73-74 | The in-place patch of the demo buffer succeeds or fails as `PatchDemo` does. On success the buffer holds the patched demo; on failure it is unchanged. |
| DemoUploader.UploadName | upload.py:80 | Definition of the upload name `https://faceit.com/en//room/<match id>.dem`. |
| DemoUploader.MatchIdOfName | upload.py:80 | A name it accepts is the upload name of the id it returns. |
| DemoUploader.NameRoundTrip | upload.py:80 | The match id can be recovered from its upload name. |
| DemoUploader.NameInjective | upload.py:80 | Two different matches never share an upload name. |
| DemoUploader.Form | upload.py:76-87 | The posted form's name gives back the match id. |
| DemoUploader.UploadOutcome | upload.py:66-88 | Definition of `upload_match` on values. The download or gunzip may raise. Then the patch may raise, then the post may raise. Otherwise the posted form is the result. |
| DemoUploader.UploadSendsPatchedDemo | upload.py:69-87 | A completed upload posts the downloaded demo, of the same length, with the branding in the header and every other byte kept. It goes under the API key, with a name that gives back the match id, and with the factions as `blu` and `red`. |
| DemoUploader.UploadFailures | upload.py:69-87 | An upload raises exactly when the download fails, the hub name is not ASCII, the demo is shorter than 276 bytes, or the post gets no response. |
| DemoUploader.UploadMatch | upload.py:66-88 | `upload_match` through a fresh byte buffer patched in place gives the outcome `UploadOutcome` describes. |
| RunOrchestrator.Hub.constructor | upload.py:93 | A hub record holds the given id, name and `last`. |
| RunOrchestrator.Snapshot | upload.py:94 | The values of the hub records, one per record, in list order. |
| RunOrchestrator.LeadingUploads | upload.py:97-99 | Counts the leading matches whose upload returns. All of them returned, and the next one, if any, raised. |
| RunOrchestrator.LeadingUploadsIs | upload.py:97-99 | That count is pinned down by the first upload that raises. |
| RunOrchestrator.Turn | upload.py:95-103 | Definition of one hub's `try` body once discovery has answered. A raise in discovery leaves the record and attempts nothing. Otherwise the matches are uploaded in order up to and including the first that raises. `last` moves to the last match whose upload returned. |
| RunOrchestrator.ProcessHub | upload.py:95-103 | Definition of one hub's turn: discovery on the hub's own record and pages, then `Turn`. |
| RunOrchestrator.RunWith | upload.py:94-103 | Definition of the first `n` hubs' turns in list order. Each turn uses only its own record, and the attempts are concatenated in order. |
| RunOrchestrator.Run | upload.py:94-103 | Definition of the whole `for hub in data` loop on values: `RunWith` over all the hubs. |
| RunOrchestrator.HubWatermark | upload.py:95-103 | Suppose the uploads of the first `j` matches return and the next one raises. Then exactly those `j` matches and the failing one are attempted, in order, and nothing after. `last` becomes the id of match `j - 1`, or stays as it was when `j` is 0. |
| RunOrchestrator.TurnResumes | upload.py:94-103 | After a hub's turn, discovery on the same pages from the hub's new `last` finds exactly the matches whose upload did not return, the failing one first. No match whose upload returned is found again, and none is skipped. Match ids are assumed distinct. |
| RunOrchestrator.DiscoveryFailureKeepsHub | upload.py:95-103 | A hub whose discovery raises keeps its `last`, and none of its matches is attempted. |
| RunOrchestrator.RunVisitsEveryHub | upload.py:94-103 | Every hub is visited in list order. Each hub's new record depends only on that hub's own record and answers, so a hub that raises does not change the others. |
| RunOrchestrator.ProcessHubInPlace | upload.py:95-103 | The `try` body for one hub moves the hub object's `last` and attempts uploads exactly as `ProcessHub` says for the hub's record before the call. |
| RunOrchestrator.RunOnce | upload.py:94-103 | After the loop over the hub objects, each holds the record `Run` gives for the records before the run. The uploads attempted are `Run`'s, in order. |

## Left out

- The HTTP requests, the gunzip, the rate-limit header logged at line 40, and
  all logging and `traceback.print_exc()`. Page answers, demo bytes and post
  completion are parameters (the `Network` datatype).
- Reading the API keys from the environment (lines 18-19). The demos.tf key
  is a parameter, and the FACEIT key only goes into a request header.
- Reading and writing `data.json` (lines 92-93, 104-105). The hub records
  arrive as objects and are left updated in place.
- Missing JSON keys other than `last`: `items`, `match_id`, `status`,
  `demo_url`, `teams` on an item, and `id` or `name` on a hub record. Items
  are modelled with all their fields present. The only item error modelled is
  an empty `demo_url` list on a finished item (`IndexError`).
- The application-level status of the demos.tf response. Any response counts
  as a completed upload, as in the script. Only a post that raises is a
  failure.
- Line 79 lacks the comma after `key=DEMOSTF_API_KEY`, which makes the file a
  syntax error as written. The model follows the evident intent: a form with
  the fields `key`, `name`, `blu`, `red` and the file `demo`.
- A hub record without a `last` key does not get its whole history:
  `hub['last']` raises `KeyError` on the first item of a non-empty first page
  (upload.py:46). The model follows this (`MissingLast`,
  `DiscoverMissingLast`). A `last` of JSON null is modelled as a value that no
  match id equals, which is where the whole history is returned.
- DiscoverResumes and TurnResumes assume that match ids are distinct among
  the items on the pages requested. The script relies on this without
  checking it: with a repeated id, moving `last` to it would stop the next
  scan at its first, newer occurrence.
- Errors are compared with the exception types the script would raise:
  `PageFailed`, `MissingLast`, `NoDemoUrl`, `DownloadFailed`, `PatchFailed`
  and `PostFailed`. The catch-all `except Exception` treats them all the same.
- Concurrency and timing are not modelled: the script is sequential.
