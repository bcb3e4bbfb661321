/**
 * `download_saavn_content`: search, pick the first record and its download
 * link, then save the audio to `downloads/<id>.m4a` unless that file is
 * already there. `DownloadSpec` says what one call does to the filesystem
 * and what it returns; `DownloadSaavnContent` does it step by step.
 */
module Downloader {
  import opened Wrappers
  import opened Sequences
  import opened Saavn
  import opened Storage

  /** Bytes requested per read of the response body. */
  const ChunkSize := 1024

  /** Where a record is saved and from which URL. */
  datatype Target = Target(path: string, url: string)

  /**
   * Outcome of one call: the path returned (None for Python's None), the
   * files afterwards, and the URL whose bytes were requested (None when no
   * second request was made).
   */
  datatype Download = Download(result: Option<string>, files: map<string, seq<byte>>, requested: Option<string>)

  /**
   * What the search decides before the filesystem is consulted: the accepted
   * record must have an `id` and a `name` (both are read), and the link
   * policy must give a URL.
   */
  function DownloadTarget(reply: SearchReply): (t: Option<Target>)
    ensures t.Some? ==> AcceptedRecord(reply).Some? && AcceptedRecord(reply).value.id.Some?
                        && t.value.path == DestinationPath(AcceptedRecord(reply).value.id.value)
                        && Some(t.value.url) == PreferredUrl(AcceptedRecord(reply).value.downloadUrl.GetOr([]))
    ensures t.Some? <==> AcceptedRecord(reply).Some? && AcceptedRecord(reply).value.id.Some?
                         && AcceptedRecord(reply).value.name.Some?
                         && PreferredUrl(AcceptedRecord(reply).value.downloadUrl.GetOr([])).Some?
  {
    match AcceptedRecord(reply)
    case None => None
    case Some(rec) =>
      if rec.id.None? || rec.name.None? then None
      else
        match PreferredUrl(rec.downloadUrl.GetOr([]))
        case None => None
        case Some(u) => Some(Target(DestinationPath(rec.id.value), u))
  }

  /**
   * One call, given the search reply, the files before it, and the status
   * and body the download URL would answer with (`failsAtEnd`: reading
   * raises after the body instead of returning the empty end marker).
   */
  function DownloadSpec(reply: SearchReply, files: map<string, seq<byte>>, fileStatus: int,
                        body: seq<byte>, failsAtEnd: bool): (d: Download)
    ensures d.result.Some? ==> DownloadTarget(reply).Some? && d.result.value == DownloadTarget(reply).value.path
                               && d.result.value in d.files
    ensures d.requested.Some? <==> DownloadTarget(reply).Some? && DownloadTarget(reply).value.path !in files
    ensures d.requested.Some? ==> d.requested.value == DownloadTarget(reply).value.url
    ensures d.requested.None? || fileStatus != OkStatus ==> d.files == files
    ensures d.requested.Some? && fileStatus == OkStatus ==>
              d.files == files[DownloadTarget(reply).value.path := body]
              && (d.result.Some? <==> !failsAtEnd)
    ensures d.requested.None? ==> (d.result.Some? <==> DownloadTarget(reply).Some?)
  {
    match DownloadTarget(reply)
    case None => Download(None, files, None)
    case Some(Target(path, url)) =>
      if path in files then Download(Some(path), files, None)
      else if fileStatus != OkStatus then Download(None, files, Some(url))
      else Download(if failsAtEnd then None else Some(path), files[path := body], Some(url))
  }

  /**
   * Repeating a call that returned a path returns the same path from the
   * filesystem, fetches nothing and changes nothing, whatever the download
   * URL would answer this time.
   */
  lemma RepeatDownloadIsLocal(reply: SearchReply, files: map<string, seq<byte>>, fileStatus: int,
                              body: seq<byte>, failsAtEnd: bool,
                              fileStatus2: int, body2: seq<byte>, failsAtEnd2: bool)
    requires DownloadSpec(reply, files, fileStatus, body, failsAtEnd).result.Some?
    ensures var d := DownloadSpec(reply, files, fileStatus, body, failsAtEnd);
            DownloadSpec(reply, d.files, fileStatus2, body2, failsAtEnd2) == Download(d.result, d.files, None)
  {
  }

  /**
   * A body whose connection breaks makes the call return None but leaves the
   * bytes received so far in the file; the next call takes that partial file
   * for a finished download and returns it without fetching.
   */
  lemma BrokenStreamLeavesPartialFile(reply: SearchReply, files: map<string, seq<byte>>, received: seq<byte>,
                                      fileStatus2: int, body2: seq<byte>, failsAtEnd2: bool)
    requires DownloadTarget(reply).Some? && DownloadTarget(reply).value.path !in files
    ensures var d := DownloadSpec(reply, files, OkStatus, received, true);
            var path := DownloadTarget(reply).value.path;
            && d.result.None? && d.files[path] == received
            && DownloadSpec(reply, d.files, fileStatus2, body2, failsAtEnd2) == Download(Some(path), d.files, None)
  {
  }

  /** A record without download links ends the call before any path is computed or fetched. */
  lemma NoLinksNoFetch(reply: SearchReply, files: map<string, seq<byte>>, fileStatus: int,
                       body: seq<byte>, failsAtEnd: bool)
    requires AcceptedRecord(reply).Some? && AcceptedRecord(reply).value.downloadUrl.GetOr([]) == []
    ensures DownloadSpec(reply, files, fileStatus, body, failsAtEnd) == Download(None, files, None)
  {
  }

  /**
   * The checks in `download_saavn_content` before the file is written:
   * check the search reply, take the first record, read its id and name,
   * and choose its download link.
   */
  method ResolveTarget(reply: SearchReply) returns (target: Option<Target>)
    ensures target == DownloadTarget(reply)
  {
    if reply.TransportError? || reply.status != OkStatus || reply.body.None? {
      return None;
    }
    var env := reply.body.value;
    if !env.success || env.results.None? || |env.results.value| == 0 {
      return None;
    }
    var result := env.results.value[0];
    if result.id.None? || result.name.None? {
      return None;
    }
    var fileUrl := ChooseFileUrl(result.downloadUrl.GetOr([]));
    if fileUrl.None? {
      return None;
    }
    return Some(Target(DestinationPath(result.id.value), fileUrl.value));
  }

  /** One more chunk moved from the unread body to the written file keeps their concatenation. */
  lemma WriteStep(writes: seq<seq<byte>>, chunk: seq<byte>, rest: seq<byte>, total: seq<byte>)
    requires Flatten(writes) + (chunk + rest) == total
    ensures Flatten(writes + [chunk]) == Flatten(writes) + chunk
    ensures Flatten(writes + [chunk]) + rest == total
  {
    FlattenSnoc(writes, chunk);
    assert Flatten(writes) + (chunk + rest) == (Flatten(writes) + chunk) + rest;
  }

  /**
   * The copy in `download_saavn_content`: open `path` for writing and copy
   * the body into it, read by read, until a read returns nothing. False
   * when a read raised; the bytes received until then stay in the file.
   */
  method SaveStream(fs: FileSystem, path: string, content: ResponseStream)
    returns (complete: bool, ghost writes: seq<seq<byte>>)
    requires content.Valid()
    modifies fs, content
    ensures fs.files == old(fs.files)[path := old(content.Remaining())]
    ensures complete <==> !content.failsAtEnd
    ensures forall w :: w in writes ==> 0 < |w| <= ChunkSize
    ensures Flatten(writes) == old(content.Remaining())
  {
    fs.Create(path);
    writes := [];
    while true
      invariant content.Valid()
      invariant fs.files == old(fs.files)[path := Flatten(writes)]
      invariant Flatten(writes) + content.Remaining() == old(content.Remaining())
      invariant forall w :: w in writes ==> 0 < |w| <= ChunkSize
      decreases |content.Remaining()|
    {
      var chunk := content.Read(ChunkSize);
      if chunk.None? || chunk.value == [] {
        assert content.Remaining() == [];
        assert Flatten(writes) + [] == Flatten(writes);
        return chunk.Some?, writes;
      }
      fs.Append(path, chunk.value);
      WriteStep(writes, chunk.value, content.Remaining(), old(content.Remaining()));
      writes := writes + [chunk.value];
    }
  }

  /**
   * `download_saavn_content(query)`, with the search endpoint's answer to the
   * query as `reply`, and the download URL's answer as `fileStatus` and
   * `content`. `writes` records each `f.write` argument.
   */
  method DownloadSaavnContent(reply: SearchReply, fs: FileSystem, fileStatus: int, content: ResponseStream)
    returns (path: Option<string>, requested: Option<string>, ghost writes: seq<seq<byte>>)
    requires content.Valid()
    modifies fs, content
    ensures var d := DownloadSpec(reply, old(fs.files), fileStatus, old(content.Remaining()), content.failsAtEnd);
            path == d.result && requested == d.requested && fs.files == d.files
    ensures requested.None? || fileStatus != OkStatus ==> unchanged(content) && writes == []
    ensures forall w :: w in writes ==> 0 < |w| <= ChunkSize
    ensures Flatten(writes) == if requested.Some? && fileStatus == OkStatus then old(content.Remaining()) else []
  {
    writes := [];
    var target := ResolveTarget(reply);
    if target.None? {
      return None, None, writes;
    }
    var p := target.value.path;
    var present := fs.Exists(p);
    if present {
      return Some(p), None, writes;
    }
    requested := Some(target.value.url);
    if fileStatus != OkStatus {
      return None, requested, writes;
    }
    var complete;
    complete, writes := SaveStream(fs, p, content);
    path := if complete then Some(p) else None;
  }
}
