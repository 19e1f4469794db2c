# Audio-stream resolution of the yt-dlp audio service

This project models how the service `ytdlp-service` (`app.py`) turns a
YouTube link into a playable audio URL, and proves properties of that model.
It covers four parts:

- **Host allow-list** (`is_valid_youtube_url`). The network location must be
  exactly one of `youtube.com`, `www.youtube.com`, `youtu.be` and
  `m.youtube.com`.
- **One extraction attempt** (`extract_audio_info`, one iteration of its
  loop). It works on the info record the extraction library returned, in three
  stages:
  1. take the top-level `url`, unless it is missing or contains `storyboard`
     or `jpg`;
  2. otherwise take the best audio-only, non-decoy format. Any `m4a` is
     preferred outright. Among equals it takes the highest `abr`, and ties
     keep list order;
  3. otherwise take the first non-decoy format that has audio.

  A final check then rejects an empty URL and any URL containing
  `storyboard`, `.jpg` or `.png`.
- **Persona loop.** It tries the clients `ios`, `android` and `web` strictly
  in that order. An exception moves on to the next client, and so does a
  rejected URL. The first accepted attempt is returned, tagged with its
  client. When all three fail, one fixed failure record is returned.
- **`/extract` status decision.** A missing URL gives 400. A URL that
  `urlparse` refuses gives 500 with `Internal server error: ` and its
  message. A disallowed host gives 400. Otherwise the status is 200 on
  success and 500 on failure.

Modules:

- `Text`: Python's `in` on strings.
- `Hosts`: the allow-list.
- `Formats`: the records and the format predicates.
- `Ranking`: the stable bitrate sort and a reference "first best" choice.
- `Selection`: the stages, `AttemptSpec`, and the imperative
  `ExtractAttempt`.
- `SelectionFacts`: what one attempt promises.
- `Resolver`: the persona loop.
- `Endpoint`: the status decision.
- `Scenarios`: whole-resolution consequences.

How Python's data is modelled:

- Each dictionary entry is a `Field`: `Absent` (the key is missing), `Null`
  (the value is `None`) or `Present`. This matters in three places:
  - `fmt.get('acodec', 'none')` treats a missing codec as `'none'`, but a
    `None` codec as having audio;
  - a `None` format URL makes `'storyboard' in None` raise;
  - a `None` top-level URL makes the log line `audio_url[:100]` (line 84)
    raise, and `None` formats make `len(formats)` (line 76) raise.

  Each of these exceptions abandons the persona, as the loop's `except` does.
- `audio_url = None` is modelled as the empty string, because the code only
  ever tests it for truth.
- `list.sort(key=…, reverse=True)` is modelled as a stable insertion sort
  (`Ranking.SortByAbr`). Python's sort keeps equal keys in their original
  order even with `reverse=True`.
- The extraction library is a given sequence of per-persona outcomes
  (`Threw | Returned(info)`). What `urlparse` makes of the URL is an input:
  the network location, or the message of the `ValueError` it raises.

Three details of the code the model keeps:

- The top-level URL is taken before the format list is looked at.
- Among audio-only candidates, any `m4a` format is preferred outright. The
  bitrate ranks only within the `m4a` formats, or within all candidates
  when there is no `m4a`.
- The gate before stages 2 and 3 tests `jpg` without a dot and does not test
  `.png`. So a top-level URL containing `.png` but neither `storyboard` nor
  `jpg` is taken, fails the final check, and abandons the persona without
  trying the format list (`SelectionFacts.CleanTopUrlDecidesAttempt`).

Two further consequences of the code as written:

- A top-level URL with `jpg` but without `.jpg` can still be accepted when
  stages 2 and 3 find nothing (`Selection.PassesFinalCheck`).
- Stage 3 never raises, because it runs only after stage 2 has scanned the
  whole list without raising. An attempt raises exactly when the record's
  format list or top-level URL is `None`, or when the top-level URL needs the
  fallback and some format URL is `None`
  (`SelectionFacts.AttemptRaisesExactly`). Stage 3 is modelled as written
  anyway.

## Model

| member | source | states |
|---|---|---|
| `Hosts.IsValidYoutubeHost` | app.py:14-18 | a host is accepted exactly when it equals one of the four YouTube host names |
| `Hosts.HostWithPortRejected` | app.py:14-18 | any host followed by `:` and a port is rejected, e.g. `youtube.com:443` |
| `Hosts.ExtendedHostRejected` | app.py:14-18 | an accepted host followed by any non-empty suffix is rejected: there is no suffix matching |
| `Hosts.LookalikeHostsRejected` | app.py:14-18 | `youtube.com.evil.net`, `evilyoutube.com`, `youtube.com:443` and `music.youtube.com` are rejected; `m.youtube.com` is accepted |
| `Formats.MissingAndNoneFields` | app.py:91-106 | a missing codec counts as `'none'` and a `None` codec does not; a missing or `None` bitrate sorts as 0; a missing format URL is the empty string and no decoy |
| `Formats.DecoyWherever` | app.py:96 | a URL holding `storyboard`, `.jpg` or `.png` anywhere is a decoy |
| `Formats.Filter` | app.py:109 | the comprehension keeps a sub-list, no longer than its input |
| `Formats.FilterMembers` | app.py:109 | the list comprehension keeps exactly the elements that satisfy its condition |
| `Formats.FilterAppend` | app.py:89-101 | filtering a list built by appending equals filtering its parts |
| `Ranking.SortByAbr` | app.py:106 | the sort returns a permutation of its input with bitrates (missing or `None` as 0) non-increasing |
| `Ranking.FirstBestIndex` | app.py:104-115 | reference choice: the position of the highest bitrate, with no earlier element reaching it |
| `Ranking.SortHeadIsFirstBest` | app.py:106-114 | the head of the stable sort is the first element of highest bitrate in the original order |
| `Ranking.SortFilterCommute` | app.py:106-109 | keeping the `m4a` formats of the sorted list equals sorting the `m4a` formats |
| `Ranking.SortedSelectionIsPreferred` | app.py:104-115 | the first `m4a` of the sorted list, or else its head, is the reference preferred format |
| `Ranking.FilterFirstBest` | app.py:104-115 | the first best of a filtered list is, in the original list, a format satisfying the filter with the highest bitrate among those and strictly higher than every earlier one |
| `Selection.NeedsFallback` | app.py:87 | the gate (also on line 118) lets no URL holding `.jpg` through |
| `Selection.PassesFinalCheck` | app.py:134 | a URL the gate lets through fails the final check only for `.png`; a URL that needs the fallback and still passes holds `jpg` but not `.jpg` |
| `Selection.Stage2` | app.py:87-115 | stage 2 raises exactly when some format URL is `None` |
| `Selection.Stage3` | app.py:118-131 | stage 3 raises only when some format URL is `None`; a URL it picks other than the current one is no decoy |
| `Selection.AttemptSpec` | app.py:75-144 | an accepted attempt has a non-empty URL free of `storyboard`, `.jpg` and `.png`, title defaulting to `Unknown` and duration to 0; a `None` format list or top-level URL raises |
| `Selection.SelectAudioOnly` | app.py:87-115 | the append loop, sort and `m4a` preference compute stage 2 exactly, including the raise on a `None` format URL |
| `Selection.SelectAnyAudio` | app.py:118-131 | the scan with `break` computes stage 3 exactly |
| `Selection.ExtractAttempt` | app.py:71-144 | the imperative attempt returns exactly the specified attempt outcome |
| `SelectionFacts.Stage2Selects` | app.py:87-115 | stage 2 raises on any `None` URL, keeps the URL when no audio-only candidate exists, and otherwise picks the first highest-`abr` `m4a` candidate if any exists, else the first highest-`abr` candidate |
| `SelectionFacts.Stage2Origin` | app.py:96-115 | stage 2 yields the current URL or the URL of an audio-only, non-decoy format |
| `SelectionFacts.Stage3PicksFirst` | app.py:118-131 | stage 3 yields the URL of the first format with audio and a non-decoy URL, or raises if a `None` URL comes first |
| `SelectionFacts.Stage3KeepsCurrent` | app.py:118-131 | stage 3 keeps the current URL when no format qualifies |
| `SelectionFacts.Stage3Origin` | app.py:118-131 | stage 3 yields the current URL or the URL of a non-decoy format with audio |
| `SelectionFacts.AcceptedUrlOrigin` | app.py:82-134 | an accepted URL is the top-level URL or a non-decoy format's URL: decoy formats are never chosen |
| `SelectionFacts.CleanTopUrlDecidesAttempt` | app.py:82-144 | a top-level URL without `storyboard` or `jpg` skips stages 2 and 3: it is accepted as-is, or rejected if it contains `.png` |
| `SelectionFacts.AttemptRaisesExactly` | app.py:75-131 | an attempt raises exactly when the format list or top-level URL is `None`, or the top-level URL needs the fallback and some format URL is `None`; stage 3 never raises after stage 2 has not |
| `Resolver.ResolveFrom` | app.py:63-151 | from persona k on: a success names one of the personas k and later and carries a URL passing the final check; a failure carries the line-151 message |
| `Resolver.Resolution` | app.py:57-158 | a success names one of `ios`, `android`, `web` and carries a URL passing the final check; a failure carries the line-151 message |
| `Resolver.ExtractAudioInfo` | app.py:56-158 | the persona loop with `continue` and early `return` yields exactly the specified resolution; `formatPreference` is never read |
| `Resolver.ResolveFromFirstAccepted` | app.py:63-151 | from persona k on: success iff some later attempt is accepted, and then it is the first such, with its fields and client; otherwise the fixed failure record |
| `Resolver.ResolutionPicksFirstAccepted` | app.py:57-158 | success iff some persona is accepted; `extraction_method` is the first accepted persona in the order ios, android, web, all earlier ones failed; otherwise `All extraction methods failed. ...` |
| `Resolver.ExtractionMethodIdentifiesAttempt` | app.py:57-148 | if `extraction_method` is the k-th persona, the k-th attempt was accepted and all k earlier ones failed |
| `Resolver.SuccessUrlIsClean` | app.py:134-142 | a successful result's `audio_url` is non-empty and contains none of `storyboard`, `.jpg`, `.png` |
| `Endpoint.ExtractReply` | app.py:170-204 | every reply has status 200, 400 or 500, and its body reports success exactly when the status is 200 |
| `Endpoint.StatusMapping` | app.py:170-204 | 400 for a missing or empty URL and for a disallowed host, 500 with `Internal server error: ` and the message when `urlparse` raises, all independent of extraction; otherwise the body is the resolution, 200 exactly on success and 500 exactly on failure; the `format` parameter changes nothing |
| `Scenarios.FirstPersonaM4aSucceeds` | app.py:63-142 | an `ios` answer with one clean 128 kbps `m4a` audio-only format gives success with that URL tagged `ios` |
| `Scenarios.DecoyOnlyAnswerMovesOn` | app.py:117-148 | an answer with no top-level URL and only decoy formats is rejected, and the loop moves to the next persona |

## Left out

- Flask routing, `jsonify`, CORS, the health-check route, `app.run` and the `PORT` variable are HTTP plumbing. Only the status decision of `/extract` is modelled.
- The `except` of the `/extract` handler (lines 199-204) is modelled only for `urlparse` raising inside `is_valid_youtube_url`. Nothing else the model covers raises past `extract_audio_info`, which returns a failure record for every `Exception`; errors inside Flask's `request.args` or `jsonify` are plumbing.
- `yt_dlp.YoutubeDL` and `extract_info` are an opaque network library. They are modelled as a given outcome per persona.
- `ydl_opts` (headers, timeouts, retries, skip lists, `player_client`) is configuration passed to the library. It has no effect on selection. The shallow copy that shares the nested `extractor_args` dictionary is also left out.
- `urlparse` is a library call. Its network location, or the message of the `ValueError` it raises, is an input.
- All logging is left out. Only the two log lines whose evaluation can raise (lines 76 and 84) are kept, as raises.
- Values of the wrong type are not modelled: a non-string URL or codec, or a non-number bitrate. Neither are non-`Exception` errors such as `KeyboardInterrupt`.
- Bitrates and durations are exact reals. NaN and floating-point rounding are not modelled.
- `Ranking.SortByAbr`: the sort on the local list `audio_formats` is modelled as reassigning that list. The list is local, so no other reference can observe the in-place update.
- Compression, segmentation, downloading, workspace cleanup and the `/process` and `/download` endpoints are not part of this model.
