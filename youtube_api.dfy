/**
 * The facade the bot calls (`YouTubeAPI`). Every method that searches is
 * given the search endpoint's answer to its `link` as `reply`; the answer
 * to a download request is given as a status and a response stream.
 * Failures never raise: each method has its own sentinel value.
 */
module YouTubeApi {
  import opened Wrappers
  import opened Sequences
  import opened TimeFormat
  import opened Saavn
  import opened Storage
  import opened Downloader

  // ----- url -----

  /** The entity kinds of a chat message: `url` looks only for URL entities; all others are one kind here. */
  datatype EntityType = UrlEntity | OtherEntity

  /** A formatted span of a message: `[offset, offset + length)` of its text or caption. */
  datatype MessageEntity = MessageEntity(kind: EntityType, offset: int, length: int)

  /**
   * A chat message: its text and caption (None when absent), its entities
   * (an absent list is empty) and the message it replies to.
   */
  datatype Message = Message(text: Option<string>, caption: Option<string>,
                             entities: seq<MessageEntity>, replyTo: Option<Message>)

  /** Result of `url`: the extracted text, None, or the TypeError of slicing a missing text. */
  datatype UrlReply = Found(url: string) | NotFound | Raises

  function IsUrl(e: MessageEntity): bool { e.kind == UrlEntity }

  /** `message.text or message.caption`: an empty text counts as absent. */
  function TextOrCaption(m: Message): (r: Option<string>)
    ensures m.text.Some? && m.text.value != "" ==> r == m.text
    ensures m.text.None? || m.text.value == "" ==> r == m.caption
  {
    if m.text.Some? && m.text.value != "" then m.text else m.caption
  }

  /**
   * The entity scan of `url` for one message: the text under its first URL entity, or
   * None when it has none.
   */
  function ScanMessage(m: Message): (r: Option<UrlReply>)
    ensures r.None? <==> forall e :: e in m.entities ==> !IsUrl(e)
    ensures r.Some? ==> !r.value.NotFound?
  {
    var k := IndexOfFirst(m.entities, IsUrl);
    if k == |m.entities| then
      assert forall e :: e in m.entities ==> !IsUrl(e);
      None
    else
      var e := m.entities[k];
      match TextOrCaption(m)
      case None => Some(Raises)
      case Some(t) => Some(Found(PySlice(t, e.offset, e.offset + e.length)))
  }

  /** `url(message)`: the message itself is scanned first, then the message it replies to. */
  function Url(m: Message): (r: UrlReply)
    ensures r == NotFound <==> (forall e :: e in m.entities ==> !IsUrl(e))
                               && (m.replyTo.Some? ==> forall e :: e in m.replyTo.value.entities ==> !IsUrl(e))
  {
    match ScanMessage(m)
    case Some(r) => r
    case None =>
      match m.replyTo
      case None => NotFound
      case Some(target) => ScanMessage(target).GetOr(NotFound)
  }

  /**
   * The first URL entity of a message decides: `url` is the Python slice of
   * the text (or caption) by that entity's span, clamped like any slice.
   */
  lemma UrlFirstEntitySpan(m: Message, k: nat, t: string)
    requires k < |m.entities| && IsUrl(m.entities[k])
    requires forall j :: 0 <= j < k ==> !IsUrl(m.entities[j])
    requires TextOrCaption(m) == Some(t)
    ensures Url(m) == Found(PySlice(t, m.entities[k].offset, m.entities[k].offset + m.entities[k].length))
  {
    assert IndexOfFirst(m.entities, IsUrl) == k;
  }

  /** A span that lies inside the text is returned exactly. */
  lemma UrlExactSpan(m: Message, k: nat, t: string)
    requires k < |m.entities| && IsUrl(m.entities[k])
    requires forall j :: 0 <= j < k ==> !IsUrl(m.entities[j])
    requires TextOrCaption(m) == Some(t)
    requires 0 <= m.entities[k].offset && 0 <= m.entities[k].length
    requires m.entities[k].offset + m.entities[k].length <= |t|
    ensures Url(m) == Found(t[m.entities[k].offset..m.entities[k].offset + m.entities[k].length])
  {
    UrlFirstEntitySpan(m, k, t);
  }

  /** A span that runs past the end of the text gives the rest of the text from its offset. */
  lemma UrlSpanPastEnd(m: Message, k: nat, t: string)
    requires k < |m.entities| && IsUrl(m.entities[k])
    requires forall j :: 0 <= j < k ==> !IsUrl(m.entities[j])
    requires TextOrCaption(m) == Some(t)
    requires 0 <= m.entities[k].offset <= |t| <= m.entities[k].offset + m.entities[k].length
    ensures Url(m) == Found(t[m.entities[k].offset..])
  {
    UrlFirstEntitySpan(m, k, t);
  }

  /**
   * A URL entity on a message with neither text nor caption: slicing `None`
   * raises `TypeError`, which `url` does not catch.
   */
  lemma UrlWithoutTextRaises(m: Message, k: nat)
    requires k < |m.entities| && IsUrl(m.entities[k])
    requires TextOrCaption(m).None?
    ensures Url(m) == Raises
  {
    assert IndexOfFirst(m.entities, IsUrl) <= k;
  }

  /** A URL entity in the message itself makes the reply target irrelevant. */
  lemma UrlPrefersMessage(m: Message, other: Option<Message>)
    requires exists e :: e in m.entities && IsUrl(e)
    ensures Url(m) == Url(m.(replyTo := other))
  {
  }

  /** Without a URL entity of its own, a message yields what its reply target yields. */
  lemma UrlFallsBackToReply(m: Message, target: Message)
    requires forall e :: e in m.entities ==> !IsUrl(e)
    requires m.replyTo == Some(target)
    ensures Url(m) == Url(target.(replyTo := None))
  {
  }

  // ----- details, title, duration, thumbnail -----

  /**
   * `int(res["duration"])`: a number is read as it is, a string through
   * `int()` of a text; any other string raises, given here as None.
   */
  function PyInt(d: JsonDuration): (r: Option<int>)
    ensures d.Seconds? ==> r == Some(d.n)
    ensures d.Text? && |d.s| >= 1 && AllDigits(d.s) ==> r == Some(ValueOf(d.s))
    ensures d.Text? && |d.s| >= 2 && d.s[0] == '-' && AllDigits(d.s[1..]) ==> r == Some(-(ValueOf(d.s[1..]) as int))
    ensures d.Text? && |d.s| >= 2 && d.s[0] == '+' && AllDigits(d.s[1..]) ==> r == Some(ValueOf(d.s[1..]))
    ensures r.None? <==> d.Text? && !(|d.s| >= 1 && AllDigits(d.s))
                         && !(|d.s| >= 2 && (d.s[0] == '-' || d.s[0] == '+') && AllDigits(d.s[1..]))
  {
    match d
    case Seconds(n) => Some(n)
    case Text(s) => ParseInt(s)
  }

  /** `res["image"][-1]["url"] if res["image"] else ""`. */
  function LastImage(image: seq<string>): (url: string)
    ensures image == [] ==> url == ""
    ensures image != [] ==> url == image[|image| - 1]
  {
    if image == [] then "" else image[|image| - 1]
  }

  /** `(title, duration_min, duration_sec, thumbnail, vidid)`. */
  datatype DetailsReply = DetailsReply(title: Option<string>, durationMin: string, durationSec: int,
                                       thumbnail: string, vidid: string)

  const DetailsNotFound := DetailsReply(None, "00:00", 0, "", "")

  /** All the fields `details` reads are present and the duration is a number or a numeral. */
  predicate HasDetails(rec: Record)
  {
    && rec.name.Some? && rec.duration.Some? && PyInt(rec.duration.value).Some?
    && rec.id.Some? && rec.image.Some?
  }

  /**
   * `details(link)`: the first result's name, duration as "MM:SS" and as
   * seconds, last image URL ("" when there is none) and id; the sentinel
   * `(None, "00:00", 0, "", "")` when the body is not a successful one with
   * results or a field is missing or malformed. The status is not looked at.
   */
  function Details(reply: SearchReply): (d: DetailsReply)
    ensures d.title.None? <==> d == DetailsNotFound
    ensures d.title.Some? <==> FirstResult(reply).Some? && HasDetails(FirstResult(reply).value)
    ensures d.title.Some? ==>
              var rec := FirstResult(reply).value;
              && d.title == rec.name && Some(d.vidid) == rec.id
              && PyInt(rec.duration.value) == Some(d.durationSec)
              && d.thumbnail == LastImage(rec.image.value)
    ensures d.durationMin == SecondsToTime(d.durationSec)
    ensures ParseTime(d.durationMin) == Some(d.durationSec)
  {
    match FirstResult(reply)
    case Some(rec) =>
      if HasDetails(rec) then
        var sec := PyInt(rec.duration.value).value;
        TimeRoundTrip(sec);
        DetailsReply(rec.name, SecondsToTime(sec), sec, LastImage(rec.image.value), rec.id.value)
      else
        TimeExamples();
        TimeRoundTrip(0);
        DetailsNotFound
    case None =>
      TimeExamples();
      TimeRoundTrip(0);
      DetailsNotFound
  }

  /** `title(link)`: the first component of `details`, None exactly when it failed. */
  function Title(reply: SearchReply): (t: Option<string>)
    ensures t.None? <==> Details(reply) == DetailsNotFound
    ensures t.Some? ==> t == FirstResult(reply).value.name
  {
    Details(reply).title
  }

  /** `duration(link)`: the "MM:SS" component of `details`, "00:00" on failure. */
  function Duration(reply: SearchReply): (r: string)
    ensures r == SecondsToTime(Details(reply).durationSec)
    ensures ParseTime(r) == Some(Details(reply).durationSec)
    ensures Details(reply) == DetailsNotFound ==> r == "00:00"
  {
    Details(reply).durationMin
  }

  /** `thumbnail(link)`: the thumbnail component of `details`, "" on failure or without images. */
  function Thumbnail(reply: SearchReply): (r: string)
    ensures Details(reply).title.Some? ==> r == LastImage(FirstResult(reply).value.image.value)
    ensures Details(reply) == DetailsNotFound ==> r == ""
    ensures r != "" ==> FirstResult(reply).Some? && FirstResult(reply).value.image.Some?
                        && r == LastImage(FirstResult(reply).value.image.value)
  {
    Details(reply).thumbnail
  }

  /**
   * The search envelope decides `details`, not the status: the same body
   * under any status gives the same answer.
   */
  lemma DetailsIgnoresStatus(status: int, body: Option<Envelope>)
    ensures Details(Reply(status, body)) == Details(Reply(OkStatus, body))
  {
  }

  /**
   * When a 200 reply gives both `details` and a download, the file written is
   * named after the id `details` reports.
   */
  lemma DetailsNamesDownloadedFile(reply: SearchReply)
    ensures Details(reply).title.Some? && DownloadTarget(reply).Some? ==>
              DownloadTarget(reply).value.path == DestinationPath(Details(reply).vidid)
  {
  }

  // ----- track -----

  /** The `track_details` dictionary. */
  datatype TrackDetails = TrackDetails(title: string, link: string, vidid: string,
                                       durationMin: string, thumb: string)

  /** `(track_details, vidid)`, or `(None, None)`. */
  datatype TrackReply = TrackFound(details: TrackDetails, vidid: string) | TrackNotFound

  /**
   * All the fields `track` reads are present, and the duration is a number:
   * `divmod` on a JSON string raises.
   */
  predicate HasTrack(rec: Record)
  {
    && rec.name.Some? && rec.url.Some? && rec.id.Some?
    && rec.duration.Some? && rec.duration.value.Seconds? && rec.image.Some?
  }

  /** `track(link)`: the first result as a track dictionary and its id, or the sentinel. */
  function Track(reply: SearchReply): (r: TrackReply)
    ensures r.TrackFound? <==> FirstResult(reply).Some? && HasTrack(FirstResult(reply).value)
    ensures r.TrackFound? ==>
              var rec := FirstResult(reply).value;
              && r.details.vidid == r.vidid && Some(r.vidid) == rec.id
              && Some(r.details.title) == rec.name && Some(r.details.link) == rec.url
              && r.details.durationMin == SecondsToTime(rec.duration.value.n)
              && ParseTime(r.details.durationMin) == Some(rec.duration.value.n)
              && r.details.thumb == LastImage(rec.image.value)
  {
    match FirstResult(reply)
    case Some(rec) =>
      if HasTrack(rec) then
        TimeRoundTrip(rec.duration.value.n);
        var details := TrackDetails(rec.name.value, rec.url.value, rec.id.value,
                                    SecondsToTime(rec.duration.value.n), LastImage(rec.image.value));
        TrackFound(details, rec.id.value)
      else TrackNotFound
    case None => TrackNotFound
  }

  /** Whenever `track` succeeds, `details` succeeds on the same reply and agrees with it. */
  lemma TrackAgreesWithDetails(reply: SearchReply)
    requires Track(reply).TrackFound?
    ensures var t := Track(reply).details;
            Details(reply) == DetailsReply(Some(t.title), t.durationMin, FirstResult(reply).value.duration.value.n,
                                           t.thumb, t.vidid)
  {
  }

  /**
   * The converse fails: a duration sent as a numeral string is read by
   * `details` (through `int`) but makes `track` fall back to its sentinel.
   */
  lemma TextDurationSplitsTrackFromDetails()
    ensures var rec := Record(Some("id1"), Some("Song"), Some(Text("65")), Some([]), Some([]), Some("u"));
            var reply := Reply(OkStatus, Some(Envelope(true, Some([rec]))));
            && Details(reply) == DetailsReply(Some("Song"), "01:05", 65, "", "id1")
            && Track(reply) == TrackNotFound
  {
    var rec := Record(Some("id1"), Some("Song"), Some(Text("65")), Some([]), Some([]), Some("u"));
    var reply := Reply(OkStatus, Some(Envelope(true, Some([rec]))));
    var digits := "65";
    assert digits[..1] == "6";
    assert ValueOf("6") == 6;
    assert ParseInt(digits) == Some(65);
    assert FirstResult(reply) == Some(rec);
    assert HasDetails(rec) && !HasTrack(rec);
    TimeExamples();
  }

  // ----- slider -----

  /** `(name, duration_min, thumbnail, vidid)`, or four Nones. */
  datatype SliderReply = SliderFound(title: string, durationMin: string, thumbnail: string, vidid: string)
                       | SliderNotFound

  /** `query_type if query_type < len(results) else 0`. */
  function SliderIndex(queryType: int, count: nat): (i: int)
    ensures i < count || i == 0
    ensures queryType < count ==> i == queryType
    ensures queryType >= count ==> i == 0
  {
    if queryType < count then queryType else 0
  }

  /**
   * All the fields `slider` reads are present: name, a numeric duration
   * (`divmod` raises on a string), a non-empty image list (`[-1]` raises on
   * an empty one) and id. The record's `url` is not read.
   */
  predicate HasSliderEntry(rec: Record)
  {
    && rec.name.Some? && rec.duration.Some? && rec.duration.value.Seconds?
    && rec.image.Some? && rec.image.value != [] && rec.id.Some?
  }

  /** One record as a slider entry, or the sentinel when a field it reads is missing or malformed. */
  function SliderEntry(rec: Record): (r: SliderReply)
    ensures r.SliderFound? <==> HasSliderEntry(rec)
    ensures r.SliderFound? ==> Some(r.title) == rec.name && Some(r.vidid) == rec.id
                               && r.durationMin == SecondsToTime(rec.duration.value.n)
                               && ParseTime(r.durationMin) == Some(rec.duration.value.n)
                               && r.thumbnail == rec.image.value[|rec.image.value| - 1]
  {
    if HasSliderEntry(rec) then
      TimeRoundTrip(rec.duration.value.n);
      SliderFound(rec.name.value, SecondsToTime(rec.duration.value.n),
                  rec.image.value[|rec.image.value| - 1], rec.id.value)
    else SliderNotFound
  }

  /**
   * `slider(link, query_type)`: the result at `query_type`, or at 0 when
   * `query_type` is past the end; a negative index counts from the end, and
   * one before the start raises, which gives the sentinel.
   */
  function Slider(reply: SearchReply, queryType: int): (r: SliderReply)
    ensures Results(reply).None? ==> r == SliderNotFound
    ensures r.SliderFound? ==> exists i :: 0 <= i < |Results(reply).value| && r == SliderEntry(Results(reply).value[i])
  {
    match Results(reply)
    case None => SliderNotFound
    case Some(rs) =>
      match PyIndex(rs, SliderIndex(queryType, |rs|))
      case None => SliderNotFound
      case Some(rec) => SliderEntry(rec)
  }

  /** An index at or past the end of the results gives the same entry as index 0. */
  lemma SliderClampsToFirst(reply: SearchReply, queryType: int)
    requires Results(reply).Some? ==> queryType >= |Results(reply).value|
    ensures Slider(reply, queryType) == Slider(reply, 0)
  {
  }

  /** Which result `slider` reads, for every index. */
  lemma SliderPicks(reply: SearchReply, queryType: int)
    requires Results(reply).Some?
    ensures var rs := Results(reply).value;
            && (0 <= queryType < |rs| ==> Slider(reply, queryType) == SliderEntry(rs[queryType]))
            && (queryType >= |rs| ==> Slider(reply, queryType) == SliderEntry(rs[0]))
            && (-|rs| <= queryType < 0 ==> Slider(reply, queryType) == SliderEntry(rs[|rs| + queryType]))
            && (queryType < -|rs| ==> Slider(reply, queryType) == SliderNotFound)
  {
  }

  /**
   * The entry at index 0 is the record `track` describes, with the same
   * fields, whenever that record has the `url` that only `track` reads.
   */
  lemma SliderFirstAgreesWithTrack(reply: SearchReply)
    ensures var s := Slider(reply, 0);
            s.SliderFound? && FirstResult(reply).value.url.Some? ==>
            && Track(reply).TrackFound?
            && Track(reply).details.title == s.title && Track(reply).details.durationMin == s.durationMin
            && Track(reply).details.thumb == s.thumbnail && Track(reply).vidid == s.vidid
  {
  }

  /** Without a `url` key, `slider` still answers while `track` falls back to its sentinel. */
  lemma MissingUrlSplitsSliderFromTrack()
    ensures var rec := Record(Some("x"), Some("n"), Some(Seconds(65)), None, Some(["img"]), None);
            var reply := Reply(OkStatus, Some(Envelope(true, Some([rec]))));
            && Slider(reply, 0) == SliderFound("n", "01:05", "img", "x")
            && Track(reply) == TrackNotFound
  {
    var rec := Record(Some("x"), Some("n"), Some(Seconds(65)), None, Some(["img"]), None);
    var reply := Reply(OkStatus, Some(Envelope(true, Some([rec]))));
    assert Results(reply) == Some([rec]) && FirstResult(reply) == Some(rec);
    assert HasSliderEntry(rec) && !HasTrack(rec);
    TimeExamples();
    assert SliderEntry(rec) == SliderFound("n", "01:05", "img", "x");
  }

  // ----- formats, exists -----

  /** One entry of the format list. */
  datatype FormatInfo = FormatInfo(format: string, filesize: int, ext: string)

  /** `formats(link)`: a fixed one-entry list and the link itself. */
  function Formats(link: string): (r: (seq<FormatInfo>, string))
    ensures r.0 == [FormatInfo(PreferredQuality, 0, Extension)]
    ensures r.1 == link
  {
    ([FormatInfo("320kbps", 0, "m4a")], link)
  }

  /** `exists(link)`: every link is accepted. */
  function LinkExists(link: string): (r: bool)
    ensures r
  {
    true
  }

  // ----- video, download -----

  /**
   * `video(link)`: downloads the audio; `(1, path)` on success, otherwise
   * `(0, "Download failed")`. A returned path is never empty, so its truth
   * value is that it is present.
   */
  method Video(reply: SearchReply, fs: FileSystem, fileStatus: int, content: ResponseStream)
    returns (code: int, message: string)
    requires content.Valid()
    modifies fs, content
    ensures var d := DownloadSpec(reply, old(fs.files), fileStatus, old(content.Remaining()), content.failsAtEnd);
            && fs.files == d.files
            && (if d.result.Some? then code == 1 && message == d.result.value
                else code == 0 && message == "Download failed")
    ensures var d := DownloadSpec(reply, old(fs.files), fileStatus, old(content.Remaining()), content.failsAtEnd);
            d.requested.None? || fileStatus != OkStatus ==> unchanged(content)
  {
    var path, _, _ := DownloadSaavnContent(reply, fs, fileStatus, content);
    if path.Some? {
      return 1, path.value;
    }
    return 0, "Download failed";
  }

  /**
   * `download(link, mystic, video, ...)`: downloads the audio whatever
   * `video` asks for; `(path, True)` on success, `(None, False)` otherwise.
   */
  method DownloadMedia(reply: SearchReply, video: bool, fs: FileSystem, fileStatus: int, content: ResponseStream)
    returns (file: Option<string>, ok: bool)
    requires content.Valid()
    modifies fs, content
    ensures var d := DownloadSpec(reply, old(fs.files), fileStatus, old(content.Remaining()), content.failsAtEnd);
            && fs.files == d.files && file == d.result && (ok <==> file.Some?)
    ensures var d := DownloadSpec(reply, old(fs.files), fileStatus, old(content.Remaining()), content.failsAtEnd);
            d.requested.None? || fileStatus != OkStatus ==> unchanged(content)
  {
    var path, _, _ := DownloadSaavnContent(reply, fs, fileStatus, content);
    if path.Some? {
      return path, true;
    }
    return None, false;
  }
}
