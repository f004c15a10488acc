/**
 * `upload_match`: download and decompress a match's demo, patch its header,
 * and post it with the match's metadata to the demo-hosting service.
 *
 * The network is a pair of parameters: `demoAt` gives the decompressed demo
 * behind a URL (`None` when the download is rejected or the body is not
 * gzip), and `postCompletes` says whether posting a form returns a response
 * at all (any response counts, whatever its status).
 */
module DemoUploader {
  import opened Wrappers
  import opened MatchDiscovery
  import opened DemoPatcher

  const NamePrefix: string := "https://faceit.com/en//room/"
  const NameSuffix: string := ".dem"

  /** The `name` field of the upload form. */
  function UploadName(matchId: string): string {
    NamePrefix + matchId + NameSuffix
  }

  /** Recovers the match id from an upload name, if it has the upload name's shape. */
  function MatchIdOfName(name: string): (r: Option<string>)
    ensures r.Some? ==> name == UploadName(r.value)
  {
    if |NamePrefix| + |NameSuffix| <= |name| && name[..|NamePrefix|] == NamePrefix
       && name[|name| - |NameSuffix|..] == NameSuffix
    then Some(name[|NamePrefix|..|name| - |NameSuffix|])
    else None
  }

  lemma NameRoundTrip(matchId: string)
    ensures MatchIdOfName(UploadName(matchId)) == Some(matchId)
  {
    var name := UploadName(matchId);
    assert name[..|NamePrefix|] == NamePrefix;
    assert name[|name| - |NameSuffix|..] == NameSuffix;
    assert name[|NamePrefix|..|name| - |NameSuffix|] == matchId;
  }

  /** Two matches never share an upload name. */
  lemma NameInjective(a: string, b: string)
    requires UploadName(a) == UploadName(b)
    ensures a == b
  {
    NameRoundTrip(a);
    NameRoundTrip(b);
  }

  /** The multipart form: fields `key`, `name`, `blu`, `red` and the file `demo`. */
  datatype UploadForm = UploadForm(key: string, name: string, blu: string, red: string, demo: seq<byte>)

  function Form(apiKey: string, m: Match, demo: seq<byte>): (f: UploadForm)
    ensures MatchIdOfName(f.name) == Some(m.id)
  {
    NameRoundTrip(m.id);
    UploadForm(apiKey, UploadName(m.id), m.faction1, m.faction2, demo)
  }

  /** Where `upload_match` raises: the download or gunzip, the patch, or the post itself. */
  datatype UploadError = DownloadFailed | PatchFailed(reason: PatchError) | PostFailed

  /** The form `upload_match` posts for `m`, or where it raises. */
  function UploadOutcome(demoAt: string -> Option<seq<byte>>, postCompletes: UploadForm -> bool,
                         apiKey: string, m: Match): Result<UploadForm, UploadError>
  {
    match demoAt(m.demoUrl)
    case None => Err(DownloadFailed)
    case Some(raw) =>
      match PatchDemo(raw, m.hubName)
      case Err(e) => Err(PatchFailed(e))
      case Ok(patched) =>
        var form := Form(apiKey, m, patched);
        if postCompletes(form) then Ok(form) else Err(PostFailed)
  }

  /**
   * A completed upload carries the downloaded demo, of the same length, with
   * its header replaced by the hub's branding and every other byte kept, under
   * a name that gives back the match id, and the two factions as `blu` and `red`.
   */
  lemma UploadSendsPatchedDemo(demoAt: string -> Option<seq<byte>>, postCompletes: UploadForm -> bool,
                               apiKey: string, m: Match)
    requires UploadOutcome(demoAt, postCompletes, apiKey, m).Ok?
    ensures demoAt(m.demoUrl).Some?
    ensures var raw := demoAt(m.demoUrl).value;
            var form := UploadOutcome(demoAt, postCompletes, apiKey, m).value;
            var text := BrandingText(m.hubName);
            && |form.demo| == |raw|
            && (forall i :: 0 <= i < |raw| && !(HeaderOffset <= i < HeaderOffset + HeaderLength) ==>
                  form.demo[i] == raw[i])
            && (forall i :: 0 <= i < HeaderLength ==>
                  form.demo[HeaderOffset + i] as int == if i < |text| then text[i] as int else 0)
            && MatchIdOfName(form.name) == Some(m.id) && form.key == apiKey
            && form.blu == m.faction1 && form.red == m.faction2
  {
  }

  /** An upload raises exactly when the demo cannot be fetched, cannot be patched, or the post fails. */
  lemma UploadFailures(demoAt: string -> Option<seq<byte>>, postCompletes: UploadForm -> bool,
                       apiKey: string, m: Match)
    ensures UploadOutcome(demoAt, postCompletes, apiKey, m).Err? <==>
            || demoAt(m.demoUrl).None?
            || !IsAscii(m.hubName)
            || |demoAt(m.demoUrl).value| < HeaderOffset + HeaderLength
            || !postCompletes(Form(apiKey, m, PatchDemo(demoAt(m.demoUrl).value, m.hubName).value))
  {
  }

  /** `upload_match(match)`: the demo goes through a fresh buffer that the header patch rewrites in place. */
  method UploadMatch(demoAt: string -> Option<seq<byte>>, postCompletes: UploadForm -> bool,
                     apiKey: string, m: Match) returns (r: Result<UploadForm, UploadError>)
    ensures r == UploadOutcome(demoAt, postCompletes, apiKey, m)
  {
    var download := demoAt(m.demoUrl);
    if download.None? {
      return Err(DownloadFailed);
    }
    var raw := download.value;
    var buf := new byte[|raw|](i requires 0 <= i < |raw| => raw[i]);
    assert buf[..] == raw;
    var patched := PatchHeader(buf, m.hubName);
    if patched.Fail? {
      return Err(PatchFailed(patched.error));
    }
    var form := Form(apiKey, m, buf[..]);
    if !postCompletes(form) {
      return Err(PostFailed);
    }
    r := Ok(form);
  }
}
