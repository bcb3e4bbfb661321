# Saavn compatibility adapter, modelled in Dafny

`SHUKLAMUSIC/platforms/Youtube.py` keeps the method names of a YouTube helper
(`YouTubeAPI`) that a Telegram music bot calls, but answers every call from
one song-search HTTP endpoint. This project models the decisions that module
makes and proves what they guarantee:

- `seconds_to_time`: seconds as a zero-padded `MM:SS` clock string
  (`TimeFormat`), with a parser that reads it back, proved to be its inverse
  for every integer.
- How a search answer is accepted and which record is used (`Saavn`):
  status 200 (downloader only), a truthy `success`, a non-empty result list,
  element 0.
- The download-link policy (`Saavn.PreferredUrl`, `Saavn.ChooseFileUrl`): the
  URL of the first `320kbps` entry; when there is none, or its URL is empty,
  the URL of the last entry. The scan stops at the first `320kbps` entry, so
  an empty URL there never leads to a later `320kbps` entry.
- The download flow (`Downloader`): the destination `downloads/<id>.m4a`, the
  short-cut when that file exists, and the copy of the body in reads of at
  most 1024 bytes until the first empty read. The filesystem is a class over
  a `map<string, seq<bv8>>` (`Storage.FileSystem`). The body is a class over
  the segments the connection delivers (`Storage.ResponseStream`).
- The facade methods (`YouTubeApi`): `url`, `details`, `title`, `duration`,
  `thumbnail`, `track`, `slider`, `formats`, `exists`, `video`, `download`.
  Each success shape and each failure sentinel is stated.

The network is an input. A search is represented by the endpoint's answer,
`Saavn.SearchReply`: a transport failure, or a status with a body that did or
did not decode as JSON. A download request is represented by the status and
the body the download URL answers with. The downloader returns the URL it
requested, or None when it made no second request. This is how "no fetch"
is stated.

Notes on the code's behaviour:

- Only the downloader checks the HTTP status. `details`, `track` and `slider`
  decode the body of any response and use it (`YouTubeApi.DetailsIgnoresStatus`).
- The link policy also falls back to the last entry when the first `320kbps`
  entry has an empty URL (line 64 tests `not file_url`), even when a later
  `320kbps` entry has one (`Saavn.EmptyPreferredSkipsLaterPreferred`).
- `slider` indexes with Python semantics. A negative `query_type` counts from
  the end. One below `-len(results)` raises, which gives the sentinel. An
  empty image list also gives the sentinel, because there is no guard before
  `[-1]`.
- `details` reads the duration through `int()`, so a numeral string works.
  `track` and `slider` pass it to `divmod`, which raises on a string
  (`YouTubeApi.TextDurationSplitsTrackFromDetails`).
- `slider` does not read a record's `url`, but `track` does. A first result
  without `url` gives a `slider` entry and the `track` sentinel
  (`YouTubeApi.MissingUrlSplitsSliderFromTrack`).
- `url` has no exception handler. A URL entity on a message with neither text
  nor caption raises `TypeError` (`YouTubeApi.UrlWithoutTextRaises`).
- `os.path.join` discards the directory when the file name is absolute. An
  id starting with `/` is saved to `<id>.m4a`, not `downloads/<id>.m4a`
  (`Saavn.DestinationPath`). Distinct ids still get distinct path
  strings (`Saavn.DestinationInjective`); they need not name distinct files
  (`x` and `./x` name the same one).
- A body whose connection breaks leaves the bytes received so far in the
  file. The next call takes that partial file for a finished download
  (`Downloader.BrokenStreamLeavesPartialFile`).

## Model

| member | source | states |
|---|---|---|
| `TimeFormat.Pad2` | SHUKLAMUSIC/platforms/Youtube.py:22 | the `02d` field is at least two characters; a non-negative value gives only digits, exactly two below 100 and with no leading zero from 100 up, and a negative one gives a minus sign and its digits, with no zero after the sign; `int()` of it gives the value back |
| `TimeFormat.SecondsToTime` | SHUKLAMUSIC/platforms/Youtube.py:20-22 | the result is `M:SS` with a colon third from the end; the seconds field is two digits worth `seconds mod 60` (below 60); the minutes field is all digits exactly when `seconds >= 0`, and reads back as the floor quotient by 60; it has no extra leading zero from 6000 seconds up, nor after the minus sign below 0; the string is exactly five characters, all but the colon digits, exactly when `0 <= seconds < 6000` |
| `TimeFormat.TimeRoundTrip` | SHUKLAMUSIC/platforms/Youtube.py:20-22 | parsing the clock string back gives `minutes*60 + seconds == n` for every integer `n` |
| `TimeFormat.TimeExamples` | SHUKLAMUSIC/platforms/Youtube.py:20-22 | 65 gives "01:05", 59 gives "00:59", 0 gives "00:00" |
| `TimeFormat.ValueOfDecimal` | SHUKLAMUSIC/platforms/Youtube.py:22 | the digits written for a non-negative integer have that integer as their value |
| `TimeFormat.ParseInt` | SHUKLAMUSIC/platforms/Youtube.py:147 | `int()` of a text succeeds exactly on ASCII digits with an optional `+` or `-` sign; digits give their value, `-` negates it and `+` keeps it |
| `Sequences.PyIndex` | SHUKLAMUSIC/platforms/Youtube.py:219 | Python indexing succeeds exactly for `-len <= i < len`; a negative index counts from the end |
| `Sequences.PySlice` | SHUKLAMUSIC/platforms/Youtube.py:132 | Python slicing never fails; bounds are normalised (negative counts from the end, then clamped to the length); in-range bounds give `s[a..b]`, an end past the length gives `s[a..]`, a start at or past the length and an inverted range give the empty sequence |
| `Sequences.IndexOfFirst` | SHUKLAMUSIC/platforms/Youtube.py:60-63 | the scan stops at the first element that passes the test, and every element before it fails the test |
| `Saavn.Results` | SHUKLAMUSIC/platforms/Youtube.py:144 | a body yields results exactly when it decoded, `success` is truthy and the result list is present and non-empty |
| `Saavn.FirstResult` | SHUKLAMUSIC/platforms/Youtube.py:145 | the record used is element 0 of those results, and there is one exactly when there are results |
| `Saavn.AcceptedRecord` | SHUKLAMUSIC/platforms/Youtube.py:41-51 | the downloader accepts a reply exactly when its status is 200 and its body yields results; it then uses `results[0]` |
| `Saavn.PreferredUrl` | SHUKLAMUSIC/platforms/Youtube.py:56-69 | a chosen URL is non-empty and is the URL of one of the entries; an empty list gives None |
| `Saavn.PreferredEntryWins` | SHUKLAMUSIC/platforms/Youtube.py:60-63 | the first `320kbps` entry with a non-empty URL is chosen, whatever follows it |
| `Saavn.LastEntryFallback` | SHUKLAMUSIC/platforms/Youtube.py:64-69 | when there is no `320kbps` entry, or the first one has an empty URL, the last entry's URL is chosen, or None when it is empty; later `320kbps` entries are not looked at |
| `Saavn.EmptyPreferredSkipsLaterPreferred` | SHUKLAMUSIC/platforms/Youtube.py:60-65 | entries `320kbps` with "", `320kbps` with "a", `96kbps` with "b" give "b" |
| `Saavn.ChooseFileUrl` | SHUKLAMUSIC/platforms/Youtube.py:57-69 | the scan-then-fall-back loop returns exactly the policy's URL |
| `Saavn.DestinationPath` | SHUKLAMUSIC/platforms/Youtube.py:72-75 | the path is `downloads/<id>.m4a`, except that an id starting with `/` gives `<id>.m4a` |
| `Saavn.DestinationInjective` | SHUKLAMUSIC/platforms/Youtube.py:75 | two ids with the same destination path are equal |
| `Storage.FileSystem.Exists` | SHUKLAMUSIC/platforms/Youtube.py:77 | true exactly when the path is a file |
| `Storage.FileSystem.Create` | SHUKLAMUSIC/platforms/Youtube.py:84 | opening for writing leaves the file empty and changes no other file |
| `Storage.FileSystem.Append` | SHUKLAMUSIC/platforms/Youtube.py:89 | a write appends its bytes to that file only |
| `Storage.ResponseStream.Read` | SHUKLAMUSIC/platforms/Youtube.py:86 | a read gives at most `n` bytes; the bytes read followed by those left are the bytes there were before; the result is empty only at the end of the body; the read raises only at the end of a body whose connection breaks |
| `Downloader.DownloadTarget` | SHUKLAMUSIC/platforms/Youtube.py:41-75 | a download target exists exactly when the reply is accepted and its first record has an id, a name and a URL the link policy picks; its path is that id's destination and its URL the picked one |
| `Downloader.DownloadSpec` | SHUKLAMUSIC/platforms/Youtube.py:24-98 | a returned path is the target's path and exists afterwards; a request is made exactly when there is a target whose file does not exist, and it asks for the chosen URL; without a request or with a non-200 answer no file changes; after a 200 answer the file holds the whole body, and the path is returned exactly when the connection did not break |
| `Downloader.RepeatDownloadIsLocal` | SHUKLAMUSIC/platforms/Youtube.py:77-79 | repeating a call that returned a path returns the same path, makes no request and changes nothing |
| `Downloader.BrokenStreamLeavesPartialFile` | SHUKLAMUSIC/platforms/Youtube.py:84-98 | a broken body gives None but leaves the received bytes in the file, and the next call returns that file without a request |
| `Downloader.NoLinksNoFetch` | SHUKLAMUSIC/platforms/Youtube.py:56-69 | an accepted record without download links gives None, makes no request and changes no file |
| `Downloader.WriteStep` | SHUKLAMUSIC/platforms/Youtube.py:85-89 | moving one chunk from the unread body into the file keeps written bytes followed by unread bytes equal to the whole body |
| `Downloader.ResolveTarget` | SHUKLAMUSIC/platforms/Youtube.py:40-75 | the step-by-step checks of the search reply, the id and name reads and the link choice give exactly the download target |
| `Downloader.SaveStream` | SHUKLAMUSIC/platforms/Youtube.py:84-91 | the file ends up holding exactly the whole body, written in non-empty pieces of at most 1024 bytes; it reports completion exactly when the connection did not break |
| `Downloader.DownloadSaavnContent` | SHUKLAMUSIC/platforms/Youtube.py:24-98 | the returned path, the requested URL and the new files are those of `DownloadSpec`; without a request or on a non-200 answer the body is not read; every write is at most 1024 bytes, and the writes add up to the body |
| `YouTubeApi.TextOrCaption` | SHUKLAMUSIC/platforms/Youtube.py:131 | a non-empty text is chosen; otherwise (no text, or an empty one) the caption, which may itself be absent |
| `YouTubeApi.ScanMessage` | SHUKLAMUSIC/platforms/Youtube.py:128-132 | one message yields nothing exactly when none of its entities is a URL |
| `YouTubeApi.Url` | SHUKLAMUSIC/platforms/Youtube.py:122-133 | `url` returns None exactly when neither the message nor its reply target has a URL entity |
| `YouTubeApi.UrlFirstEntitySpan` | SHUKLAMUSIC/platforms/Youtube.py:128-132 | with a text or caption, `url` is the Python slice of it by the first URL entity's span, clamped like any slice |
| `YouTubeApi.UrlExactSpan` | SHUKLAMUSIC/platforms/Youtube.py:129-132 | the first URL entity's span `[offset, offset+length)` of the text (or caption) is returned exactly when it lies inside the text |
| `YouTubeApi.UrlSpanPastEnd` | SHUKLAMUSIC/platforms/Youtube.py:132 | a span running past the end of the text gives the text from the offset to its end |
| `YouTubeApi.UrlWithoutTextRaises` | SHUKLAMUSIC/platforms/Youtube.py:129-132 | a URL entity on a message with neither text nor caption makes `url` raise `TypeError` |
| `YouTubeApi.UrlPrefersMessage` | SHUKLAMUSIC/platforms/Youtube.py:124-133 | a URL entity in the message itself makes its reply target irrelevant |
| `YouTubeApi.UrlFallsBackToReply` | SHUKLAMUSIC/platforms/Youtube.py:125-127 | a message without a URL entity yields what its reply target yields on its own |
| `YouTubeApi.PyInt` | SHUKLAMUSIC/platforms/Youtube.py:147 | `int(res["duration"])`: a number is read as it is; a string succeeds exactly when it is ASCII digits with an optional sign, and gives their value, negated after `-` |
| `YouTubeApi.LastImage` | SHUKLAMUSIC/platforms/Youtube.py:151 | the thumbnail is the last image URL, or "" without images |
| `YouTubeApi.Details` | SHUKLAMUSIC/platforms/Youtube.py:135-156 | `details` fails exactly when the sentinel `(None, "00:00", 0, "", "")` is returned, which is exactly when there is no first result with name, duration readable by `int()`, id and image list; on success the title and id are the record's, the seconds are `int()` of its duration, the thumbnail is its last image or ""; the duration string is always `seconds_to_time` of the seconds and parses back to them |
| `YouTubeApi.Title` | SHUKLAMUSIC/platforms/Youtube.py:158-160 | `title` is None exactly when `details` failed, and otherwise the first result's name |
| `YouTubeApi.Duration` | SHUKLAMUSIC/platforms/Youtube.py:162-164 | `duration` is `seconds_to_time` of the seconds `details` reports, so it parses back to them; "00:00" on failure |
| `YouTubeApi.Thumbnail` | SHUKLAMUSIC/platforms/Youtube.py:166-168 | `thumbnail` is the first result's last image URL (or "" without images) when `details` succeeds, and "" when it fails |
| `YouTubeApi.DetailsIgnoresStatus` | SHUKLAMUSIC/platforms/Youtube.py:139-144 | `details` gives the same answer for the same body under any status |
| `YouTubeApi.DetailsNamesDownloadedFile` | SHUKLAMUSIC/platforms/Youtube.py:149 | when a reply gives both details and a download target, the file downloaded is named after the id `details` reports |
| `YouTubeApi.Track` | SHUKLAMUSIC/platforms/Youtube.py:180-202 | `track` succeeds exactly when the first result has name, url, id, a numeric duration and an image list; on success the dictionary's fields are the record's, its `vidid` equals the returned id, and its `duration_min` is `seconds_to_time` of the duration |
| `YouTubeApi.TrackAgreesWithDetails` | SHUKLAMUSIC/platforms/Youtube.py:189-199 | whenever `track` succeeds, `details` on the same reply succeeds with the same title, duration, thumbnail and id |
| `YouTubeApi.TextDurationSplitsTrackFromDetails` | SHUKLAMUSIC/platforms/Youtube.py:196 | a duration sent as the string "65" gives `details` "01:05" and 65 but gives the `track` sentinel |
| `YouTubeApi.SliderIndex` | SHUKLAMUSIC/platforms/Youtube.py:218 | the index is `query_type` when that is below the count, else 0 |
| `YouTubeApi.SliderEntry` | SHUKLAMUSIC/platforms/Youtube.py:221-226 | a record gives an entry exactly when it has name, a numeric duration, a non-empty image list and id (its `url` is not needed); the entry holds its name, id, last image and `seconds_to_time` of its duration |
| `YouTubeApi.Slider` | SHUKLAMUSIC/platforms/Youtube.py:209-229 | without results `slider` gives four Nones; an entry it gives is one of the results |
| `YouTubeApi.SliderClampsToFirst` | SHUKLAMUSIC/platforms/Youtube.py:218 | an index at or past the end gives the same answer as index 0 |
| `YouTubeApi.SliderPicks` | SHUKLAMUSIC/platforms/Youtube.py:218-219 | which result is read for every index: in range, past the end (element 0), negative (counted from the end), and before the start (sentinel) |
| `YouTubeApi.MissingUrlSplitsSliderFromTrack` | SHUKLAMUSIC/platforms/Youtube.py:221-226 | a first result without `url` gives the `slider` entry `("n", "01:05", "img", "x")` and the `track` sentinel |
| `YouTubeApi.SliderFirstAgreesWithTrack` | SHUKLAMUSIC/platforms/Youtube.py:216-226 | when `slider` at index 0 succeeds and the first result has a `url`, `track` succeeds with the same title, duration, thumbnail and id |
| `YouTubeApi.Formats` | SHUKLAMUSIC/platforms/Youtube.py:204-207 | `formats` is always the one-entry list `320kbps`, size 0, `m4a`, and echoes the link |
| `YouTubeApi.LinkExists` | SHUKLAMUSIC/platforms/Youtube.py:118-120 | `exists` is always true |
| `YouTubeApi.Video` | SHUKLAMUSIC/platforms/Youtube.py:170-178 | `video` has the download's effect on the files and gives `(1, path)` when it returned a path, else `(0, "Download failed")`; without a request, or on a non-200 answer, the body is not read |
| `YouTubeApi.DownloadMedia` | SHUKLAMUSIC/platforms/Youtube.py:231-253 | `download` has the download's effect whatever `video` says, and gives `(path, True)` or `(None, False)`; without a request, or on a non-200 answer, the body is not read |

## Left out

- HTTP requests and JSON decoding. Both replies are inputs. The model does not state that the search URL is built by pasting the query unencoded after `?query=`.
- Path normalisation: `.` and `..` components and symbolic links are not resolved, so two distinct path strings are always two distinct files here.
- Directory creation (`os.makedirs`). Directories are not modelled, so `os.path.exists` is true only of files here, not of a directory at the destination path.
- Logging, which has no effect on results.
- async scheduling and concurrent calls. Each call is sequential, so the race between two downloads of one id is not modelled.
- Failures of `open`/`write` (a full disk, no permission). Only a read from the body can fail.
- `download_song` and `download_video`: both only delegate, and `download_type` is never used. `Video` and `DownloadMedia` call `DownloadSaavnContent` directly.
- The `(0, f"Error: {e}")` branch of `video`: everything in `download_saavn_content` after the logger lookup and the `"http" in query` test runs inside its `try`, and neither of those two can raise for a string link and a working logger, so that branch cannot be reached.
- The no-op `"http" in query` test and the unused `self.base`/`self.regex` strings.
- Python truthiness of JSON values. `success` is a boolean; an absent, null or falsy `data` and a missing `results` key are all "no results", which every caller treats alike.
- JSON `null` or non-list values of `image` and `downloadUrl`: these fields are either a present list or absent. In the code a null `image` is falsy, so `details` and `track` succeed with thumbnail `""` while `slider` raises and gives its sentinel, and a null `downloadUrl` makes the link loop raise; the model gives every caller's absent-key outcome instead.
- Missing keys and non-string values inside `downloadUrl` and `image` entries, and JSON types other than string for `id`, `name` and `url`.
- TimeFormat.ParseInt: Python's `int()` also accepts surrounding whitespace, `_` between digits and non-ASCII digits; such duration strings make `details` fail in the model.
- Durations that are JSON floats or null cannot be expressed (`JsonDuration` is a number or a string). In the code `int(65.9)` succeeds in `details`, while `02d` on a float fails in `track` and `slider`.
- Telegram entity offsets count UTF-16 code units. The model slices a `seq<char>` by the offsets as given and does not model how the message library's string type maps those units to characters.
- Entity kinds other than URL are one kind (`OtherEntity`). Entities of a caption (pyrogram's `caption_entities`) are not consulted, as in the code.
- POSIX `os.path.join` only; Windows path rules are not modelled.
