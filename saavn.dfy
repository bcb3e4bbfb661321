/**
 * The song-search service as seen by the adapter: the JSON envelope it
 * answers with, the rule that accepts an answer and picks its record, the
 * policy that picks a download link from a record, and the local file a
 * record is saved to.
 */
module Saavn {
  import opened Wrappers
  import opened Sequences

  /** A record's `duration`: a JSON number, or a JSON string holding one. */
  datatype JsonDuration = Seconds(n: int) | Text(s: string)

  /** One entry of a record's `downloadUrl` list. */
  datatype DownloadLink = DownloadLink(quality: string, url: string)

  /**
   * One element of `data.results`. A field is None when the key is absent
   * from the JSON object; `image` holds the `url` of each image entry, in
   * the service's order.
   */
  datatype Record = Record(
    id: Option<string>,
    name: Option<string>,
    duration: Option<JsonDuration>,
    downloadUrl: Option<seq<DownloadLink>>,
    image: Option<seq<string>>,
    url: Option<string>)

  /**
   * The decoded JSON body. `success` is the truth value of the `success`
   * key (false when absent). `results` is None when `data` is absent or
   * falsy or has no `results` list: every caller treats those alike.
   */
  datatype Envelope = Envelope(success: bool, results: Option<seq<Record>>)

  /**
   * What the search endpoint answered for one query: the request failed,
   * or a status with a body that did (Some) or did not (None) decode as JSON.
   */
  datatype SearchReply = TransportError | Reply(status: int, body: Option<Envelope>)

  const OkStatus := 200
  const PreferredQuality := "320kbps"
  const DownloadDir := "downloads"
  const Extension := "m4a"

  /**
   * The non-empty result list of a successful body, without looking at the
   * status: the facade methods read the JSON of any response.
   */
  function Results(reply: SearchReply): (r: Option<seq<Record>>)
    ensures r.Some? <==> reply.Reply? && reply.body.Some? && reply.body.value.success
                         && reply.body.value.results.Some? && |reply.body.value.results.value| > 0
    ensures r.Some? ==> r == reply.body.value.results && |r.value| > 0
  {
    match reply
    case TransportError => None
    case Reply(_, body) =>
      match body
      case None => None
      case Some(env) =>
        if env.success && env.results.Some? && |env.results.value| > 0 then env.results else None
  }

  /** The record the facade methods use: the first of the results. */
  function FirstResult(reply: SearchReply): (r: Option<Record>)
    ensures r.Some? <==> Results(reply).Some?
    ensures r.Some? ==> r.value == Results(reply).value[0]
  {
    match Results(reply)
    case None => None
    case Some(rs) => Some(rs[0])
  }

  /**
   * The record the downloader uses: a reply is rejected when its status is
   * not 200, its body is not JSON, `success` is falsy, `data` is missing or
   * the results are empty; otherwise the first result is taken.
   */
  function AcceptedRecord(reply: SearchReply): (r: Option<Record>)
    ensures r.Some? <==> reply.Reply? && reply.status == OkStatus && Results(reply).Some?
    ensures r.Some? ==> r == FirstResult(reply)
  {
    if reply.Reply? && reply.status == OkStatus then FirstResult(reply) else None
  }

  function IsPreferred(d: DownloadLink): bool { d.quality == PreferredQuality }

  /**
   * The link policy: the URL of the first "320kbps" entry; when there is no
   * such entry, or its URL is empty (falsy), the URL of the last entry; None
   * when the list is empty or the URL so chosen is empty.
   */
  function PreferredUrl(links: seq<DownloadLink>): (r: Option<string>)
    ensures r.Some? ==> r.value != [] && exists i :: 0 <= i < |links| && links[i].url == r.value
    ensures links == [] ==> r.None?
  {
    var k := IndexOfFirst(links, IsPreferred);
    var picked := if k < |links| then links[k].url else "";
    var chosen := if picked == "" && |links| > 0 then links[|links| - 1].url else picked;
    if chosen == "" then None else Some(chosen)
  }

  /** A preferred-quality entry with a non-empty URL wins, whatever follows it. */
  lemma PreferredEntryWins(links: seq<DownloadLink>, i: nat)
    requires i < |links| && links[i].quality == PreferredQuality && links[i].url != ""
    requires forall j :: 0 <= j < i ==> links[j].quality != PreferredQuality
    ensures PreferredUrl(links) == Some(links[i].url)
  {
    var k := IndexOfFirst(links, IsPreferred);
    assert IsPreferred(links[i]);
  }

  /**
   * When there is no preferred-quality entry (`k == |links|`), or the first
   * one, at `k`, has an empty URL, the last entry's URL is taken if it is not
   * empty: later preferred-quality entries are not looked at.
   */
  lemma LastEntryFallback(links: seq<DownloadLink>, k: nat)
    requires 0 < |links| && k <= |links|
    requires forall j :: 0 <= j < k ==> links[j].quality != PreferredQuality
    requires k < |links| ==> links[k].quality == PreferredQuality && links[k].url == ""
    ensures PreferredUrl(links) == if links[|links| - 1].url == "" then None else Some(links[|links| - 1].url)
  {
    if k < |links| {
      assert IsPreferred(links[k]);
    }
    assert IndexOfFirst(links, IsPreferred) == k;
  }

  /** An empty first "320kbps" URL sends the choice to the last entry, past a later "320kbps" entry. */
  lemma EmptyPreferredSkipsLaterPreferred()
    ensures PreferredUrl([DownloadLink("320kbps", ""), DownloadLink("320kbps", "a"), DownloadLink("96kbps", "b")])
            == Some("b")
  {
    var links := [DownloadLink("320kbps", ""), DownloadLink("320kbps", "a"), DownloadLink("96kbps", "b")];
    LastEntryFallback(links, 0);
  }

  /**
   * The link choice of `download_saavn_content` as written: scan for the
   * first preferred entry (stopping at it even when its URL is empty), then
   * fall back to the last entry when nothing truthy was found, and give up
   * when the result is still empty.
   */
  method ChooseFileUrl(links: seq<DownloadLink>) returns (fileUrl: Option<string>)
    ensures fileUrl == PreferredUrl(links)
  {
    var found: Option<string> := None;
    var i := 0;
    while i < |links|
      invariant 0 <= i <= |links|
      invariant found.None? ==> forall j :: 0 <= j < i ==> !IsPreferred(links[j])
      invariant found.Some? ==> IndexOfFirst(links, IsPreferred) < |links|
                                && found.value == links[IndexOfFirst(links, IsPreferred)].url
    {
      if links[i].quality == PreferredQuality {
        found := Some(links[i].url);
        assert IsPreferred(links[i]);
        break;
      }
      i := i + 1;
    }
    if (found.None? || found.value == "") && |links| > 0 {
      found := Some(links[|links| - 1].url);
    }
    if found.None? || found.value == "" {
      return None;
    }
    return found;
  }

  /**
   * `os.path.join("downloads", f"{id}.m4a")` on POSIX: the file name is put
   * under the download directory, unless it is itself absolute (starts with
   * '/'), in which case join discards the directory.
   */
  function DestinationPath(id: string): (p: string)
    ensures (id == [] || id[0] != '/') ==> p == DownloadDir + "/" + id + "." + Extension
    ensures (id != [] && id[0] == '/') ==> p == id + "." + Extension
  {
    var fileName := id + "." + Extension;
    if fileName[0] == '/' then fileName else DownloadDir + "/" + fileName
  }

  /** Different ids give different path strings. */
  lemma DestinationInjective(a: string, b: string)
    requires DestinationPath(a) == DestinationPath(b)
    ensures a == b
  {
    var pa, pb := DestinationPath(a), DestinationPath(b);
    var suffix := "." + Extension;
    var absA, absB := a != [] && a[0] == '/', b != [] && b[0] == '/';
    // An absolute path starts with '/', a relative one with the 'd' of "downloads",
    // so both ids are absolute or both are not.
    if absA {
      assert a == pa[..|pa| - |suffix|];
      assert b == pb[..|pb| - |suffix|];
    } else {
      var prefix := DownloadDir + "/";
      assert a == pa[|prefix|..|pa| - |suffix|];
      assert b == pb[|prefix|..|pb| - |suffix|];
    }
  }
}
