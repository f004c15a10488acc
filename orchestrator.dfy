/**
 * `main`: for each hub record in order, discover its new matches and upload
 * them oldest-first, moving the hub's `last` to each match as soon as its
 * upload returns. Anything that raises abandons the rest of that hub only.
 *
 * Reading and writing `data.json` are not part of this model: the hub
 * records arrive as objects and are left updated in place.
 */
module RunOrchestrator {
  import opened Wrappers
  import opened MatchDiscovery
  import opened DemoUploader

  /** What the three services answer during one run. */
  datatype Network = Network(
    pages: string -> seq<Page>,               // hub id -> its past-matches pages, newest first
    demoAt: string -> Option<seq<DemoPatcher.byte>>,
    postCompletes: UploadForm -> bool)

  /** One hub record of the store, as a dictionary whose `last` entry the run rewrites. */
  class Hub {
    const id: string
    const name: string
    var last: LastField

    constructor (id: string, name: string, last: LastField)
      ensures this.id == id && this.name == name && this.last == last
    {
      this.id := id;
      this.name := name;
      this.last := last;
    }
  }

  /** A hub record as a value. */
  datatype HubRecord = HubRecord(id: string, name: string, last: LastField)

  ghost function Snapshot(hubs: seq<Hub>): (r: seq<HubRecord>)
    reads hubs
    ensures |r| == |hubs|
  {
    seq(|hubs|, i reads hubs requires 0 <= i < |hubs| => HubRecord(hubs[i].id, hubs[i].name, hubs[i].last))
  }

  predicate Uploads(net: Network, apiKey: string, m: Match) {
    UploadOutcome(net.demoAt, net.postCompletes, apiKey, m).Ok?
  }

  /** How many of `ms`, from the first, are `uploaded` before one raises. */
  function LeadingUploads(uploaded: Match -> bool, ms: seq<Match>): (k: nat)
    ensures k <= |ms|
    ensures forall j :: 0 <= j < k ==> uploaded(ms[j])
    ensures k < |ms| ==> !uploaded(ms[k])
  {
    if ms == [] || !uploaded(ms[0]) then 0
    else 1 + LeadingUploads(uploaded, ms[1..])
  }

  /** The leading-upload count is pinned down by its first failing match. */
  lemma LeadingUploadsIs(uploaded: Match -> bool, ms: seq<Match>, n: nat)
    requires n <= |ms|
    requires forall j :: 0 <= j < n ==> uploaded(ms[j])
    requires n < |ms| ==> !uploaded(ms[n])
    ensures LeadingUploads(uploaded, ms) == n
  {
  }

  /**
   * A hub's turn once discovery has answered `found`: its record afterwards
   * and the matches whose upload was attempted, in order.
   */
  function Turn(uploaded: Match -> bool, hub: HubRecord, found: Result<seq<Match>, DiscoveryError>)
    : (HubRecord, seq<Match>)
  {
    match found
    case Err(_) => (hub, [])
    case Ok(ms) =>
      var k := LeadingUploads(uploaded, ms);
      (if k == 0 then hub else hub.(last := Last(ms[k - 1].id)),
       if k < |ms| then ms[..k + 1] else ms)
  }

  /** One hub's turn: discovery with the hub's own record, then the uploads. */
  function ProcessHub(net: Network, apiKey: string, hub: HubRecord): (HubRecord, seq<Match>) {
    Turn(m => Uploads(net, apiKey, m), hub, Scan(net.pages(hub.id), hub.name, hub.last))
  }

  /** The whole run on values: every hub's record afterwards, and all upload attempts in order. */
  datatype RunResult = RunResult(hubs: seq<HubRecord>, attempted: seq<Match>)

  /**
   * The first `n` hubs taken in list order, each on its own record, with the
   * attempts of all turns in that order.
   */
  function RunWith(net: Network, apiKey: string, hubs: seq<HubRecord>, n: nat): RunResult
    requires n <= |hubs|
  {
    if n == 0 then RunResult([], [])
    else
      var done := RunWith(net, apiKey, hubs, n - 1);
      var turn := ProcessHub(net, apiKey, hubs[n - 1]);
      RunResult(done.hubs + [turn.0], done.attempted + turn.1)
  }

  /** The whole run on values. */
  function Run(net: Network, apiKey: string, hubs: seq<HubRecord>): RunResult {
    RunWith(net, apiKey, hubs, |hubs|)
  }

  // ---------------------------------------------------------------------------
  // What the run promises

  /**
   * Every hub is visited, and what happens to each depends on that hub alone:
   * a hub that raises leaves the others' results as they would be without it.
   */
  lemma {:induction false} RunVisitsEveryHub(net: Network, apiKey: string, hubs: seq<HubRecord>, n: nat)
    requires n <= |hubs|
    ensures |RunWith(net, apiKey, hubs, n).hubs| == n
    ensures forall i :: 0 <= i < n ==>
              RunWith(net, apiKey, hubs, n).hubs[i] == ProcessHub(net, apiKey, hubs[i]).0
  {
    if n > 0 {
      RunVisitsEveryHub(net, apiKey, hubs, n - 1);
      var before := RunWith(net, apiKey, hubs, n - 1).hubs;
      assert RunWith(net, apiKey, hubs, n).hubs == before + [ProcessHub(net, apiKey, hubs[n - 1]).0];
    }
  }

  /** A hub whose discovery raises keeps its record, and none of its matches is attempted. */
  lemma DiscoveryFailureKeepsHub(uploaded: Match -> bool, hub: HubRecord, e: DiscoveryError)
    ensures Turn(uploaded, hub, Err(e)) == (hub, [])
  {
  }

  /**
   * The uploads of the first `j` discovered matches return and the next one,
   * if any, raises: exactly those `j` (and the failing one) are attempted, no
   * later match is, and `last` ends at the id of match `j - 1`, the last whose
   * upload returned, or stays as it was when `j` is 0.
   */
  lemma HubWatermark(uploaded: Match -> bool, hub: HubRecord, ms: seq<Match>, j: nat)
    requires j <= |ms|
    requires forall i :: 0 <= i < j ==> uploaded(ms[i])
    requires j < |ms| ==> !uploaded(ms[j])
    ensures Turn(uploaded, hub, Ok(ms))
            == (if j == 0 then hub else hub.(last := Last(ms[j - 1].id)),
                if j < |ms| then ms[..j + 1] else ms)
  {
    LeadingUploadsIs(uploaded, ms, j);
  }

  /**
   * The watermark a turn leaves lets the next run resume where this one
   * stopped. Discovery on the same pages, from the hub's new record, finds
   * exactly the matches whose upload did not return, the failing one first,
   * so no match whose upload returned is found again. Match ids are taken to
   * be distinct on the pages the turn's discovery requested.
   */
  lemma TurnResumes(net: Network, apiKey: string, hub: HubRecord)
    requires Scan(net.pages(hub.id), hub.name, hub.last).Ok?
    requires DistinctIds(ItemsBefore(net.pages(hub.id), StopPage(net.pages(hub.id), hub.last) + 1))
    ensures var ms := Scan(net.pages(hub.id), hub.name, hub.last).value;
            var uploaded := LeadingUploads(m => Uploads(net, apiKey, m), ms);
            Scan(net.pages(hub.id), hub.name, ProcessHub(net, apiKey, hub).0.last) == Ok(ms[uploaded..])
  {
    var history := net.pages(hub.id);
    var ms := Scan(history, hub.name, hub.last).value;
    var k := LeadingUploads(m => Uploads(net, apiKey, m), ms);
    var after := ProcessHub(net, apiKey, hub).0;
    ScanIsDiscover(history, hub.name, hub.last);
    ScanIsDiscover(history, hub.name, after.last);
    if k == 0 {
      assert ms[0..] == ms;
    } else {
      assert after.last == Last(ms[k - 1].id);
      DiscoverResumes(history, hub.name, hub.last, k);
    }
  }

  // ---------------------------------------------------------------------------
  // The run as the script does it

  /**
   * The body of the `try` in `main` for one hub: discover, then upload each
   * match and move `last` to it once its upload returns; the first raise ends
   * the hub's turn. `attempted` lists the matches passed to `upload_match`.
   */
  method ProcessHubInPlace(net: Network, apiKey: string, hub: Hub) returns (attempted: seq<Match>)
    modifies hub
    ensures (HubRecord(hub.id, hub.name, hub.last), attempted)
            == ProcessHub(net, apiKey, HubRecord(hub.id, hub.name, old(hub.last)))
  {
    attempted := [];
    var found, _ := GetNewMatches(net.pages(hub.id), hub.name, hub.last);
    if found.Err? {
      return;
    }
    var ms := found.value;
    var n := 0;
    while n < |ms|
      invariant n <= |ms|
      invariant forall j :: 0 <= j < n ==> Uploads(net, apiKey, ms[j])
      invariant hub.last == if n == 0 then old(hub.last) else Last(ms[n - 1].id)
      invariant attempted == ms[..n]
    {
      var m := ms[n];
      attempted := attempted + [m];
      var uploaded := UploadMatch(net.demoAt, net.postCompletes, apiKey, m);
      if uploaded.Err? {
        assert attempted == ms[..n + 1];
        HubWatermark(m => Uploads(net, apiKey, m), HubRecord(hub.id, hub.name, old(hub.last)), ms, n);
        return;
      }
      hub.last := Last(m.id);
      n := n + 1;
    }
    assert ms[..n] == ms;
    HubWatermark(m => Uploads(net, apiKey, m), HubRecord(hub.id, hub.name, old(hub.last)), ms, n);
  }

  /**
   * The `for hub in data` loop of `main`, with the `try`/`except` that turns
   * any raise into "go on with the next hub". The hub records are distinct
   * objects, as `json.load` builds them. `attempted` lists the matches passed
   * to `upload_match`, in order.
   */
  method RunOnce(net: Network, apiKey: string, hubs: seq<Hub>) returns (attempted: seq<Match>)
    requires forall i, j :: 0 <= i < j < |hubs| ==> hubs[i] != hubs[j]
    modifies hubs
    ensures Snapshot(hubs) == Run(net, apiKey, old(Snapshot(hubs))).hubs
    ensures attempted == Run(net, apiKey, old(Snapshot(hubs))).attempted
  {
    ghost var before := Snapshot(hubs);
    ghost var done: seq<HubRecord> := [];
    attempted := [];
    for i := 0 to |hubs|
      invariant RunWith(net, apiKey, before, i) == RunResult(done, attempted)
      invariant |done| == i
      invariant forall j :: 0 <= j < i ==> done[j] == HubRecord(hubs[j].id, hubs[j].name, hubs[j].last)
      invariant forall j :: i <= j < |hubs| ==> hubs[j].last == before[j].last
    {
      var hub := hubs[i];
      var turnOfHub := ProcessHubInPlace(net, apiKey, hub);
      done := done + [HubRecord(hub.id, hub.name, hub.last)];
      attempted := attempted + turnOfHub;
    }
  }
}
