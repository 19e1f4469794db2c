/** One extraction attempt (app.py:71-144): from the info record the library
    returned, pick a fetch URL in three stages and validate it. */
module Selection {
  import opened Wrappers
  import opened Text
  import opened Formats
  import opened Ranking

  /** The outcome of one attempt: an exception escaped, the chosen URL failed
      the final check, or it passed. */
  datatype Attempt =
    | Raised
    | Rejected
    | Accepted(audioUrl: string, title: Option<string>, duration: Option<real>)

  /** The gate in front of stages 2 and 3 (lines 87, 118): no URL yet, or one
      containing `storyboard` or `jpg` (no dot; `.png` is not looked for). The
      empty string stands for Python's `None`: only its truthiness matters. */
  predicate NeedsFallback(u: string)
    ensures Contains(u, ".jpg") ==> NeedsFallback(u)
  {
    DotJpgContainsJpg(u);
    u == "" || Contains(u, "storyboard") || Contains(u, "jpg")
  }

  /** The final check of line 134. A URL the gate lets through is refused
      only for `.png`; a URL that both needs the fallback and passes holds
      `jpg` without a dot before it. */
  predicate PassesFinalCheck(u: string)
    ensures !NeedsFallback(u) ==> (PassesFinalCheck(u) <==> !Contains(u, ".png"))
    ensures NeedsFallback(u) && PassesFinalCheck(u) ==> Contains(u, "jpg") && !Contains(u, ".jpg")
  {
    u != "" && !IsDecoy(u)
  }

  /** `info.get('formats', [])`; a `None` value is read as empty here and
      makes `len(formats)` on line 76 raise in the attempt. */
  function FormatList(info: InfoRecord): seq<Format>
  {
    if info.formats.Present? then info.formats.value else []
  }

  /** Lines 82-83: the top-level `url` if present (missing stands as ""). */
  function TopUrl(info: InfoRecord): string
  {
    if info.url.Present? then info.url.value else ""
  }

  /** `info.get('title', 'Unknown')`; a `None` title is passed on as `None`. */
  function TitleOf(info: InfoRecord): Option<string>
  {
    match info.title
    case Absent => Some("Unknown")
    case Null => None
    case Present(t) => Some(t)
  }

  /** `info.get('duration', 0)`. */
  function DurationOf(info: InfoRecord): Option<real>
  {
    match info.duration
    case Absent => Some(0.0)
    case Null => None
    case Present(d) => Some(d)
  }

  /** Some format's URL is `None`: `'storyboard' in None` raises. */
  predicate HasNullUrl(fs: seq<Format>)
  {
    exists i | 0 <= i < |fs| :: fs[i].url.Null?
  }

  /** Stage 2 (lines 87-115): `None` when it raises; the URL of the preferred
      audio-only candidate if there is one; else the current URL unchanged. */
  function Stage2(fs: seq<Format>, current: string): (r: Option<string>)
    ensures r.None? <==> HasNullUrl(fs)
  {
    if HasNullUrl(fs) then None
    else
      var candidates := Filter(IsAudioOnlyCandidate, fs);
      if candidates == [] then Some(current) else Some(UrlText(PreferredFormat(candidates)))
  }

  /** Stage 3 (lines 117-131): the first format in list order that has audio
      and a non-decoy URL; `None` when a `None` URL is met first. */
  function Stage3(fs: seq<Format>, current: string): (r: Option<string>)
    ensures r.None? ==> HasNullUrl(fs)
    ensures r.Some? && r.value != current ==> !IsDecoy(r.value)
  {
    if fs == [] then Some(current)
    else if fs[0].url.Null? then None
    else if IsAnyAudioCandidate(fs[0]) then Some(UrlText(fs[0]))
    else Stage3(fs[1..], current)
  }

  /** The specification of one attempt on a returned info record. */
  function AttemptSpec(info: InfoRecord): (r: Attempt)
    ensures r.Accepted? ==> PassesFinalCheck(r.audioUrl)
    ensures r.Accepted? ==> r.title == TitleOf(info) && r.duration == DurationOf(info)
    ensures info.formats.Null? || info.url.Null? ==> r == Raised
  {
    if info.formats.Null? || info.url.Null? then Raised
    else
      var fs := FormatList(info);
      var u1 := TopUrl(info);
      var s2 := if NeedsFallback(u1) then Stage2(fs, u1) else Some(u1);
      if s2.None? then Raised
      else
        var u2 := s2.value;
        var s3 := if NeedsFallback(u2) then Stage3(fs, u2) else Some(u2);
        if s3.None? then Raised
        else if PassesFinalCheck(s3.value) then Accepted(s3.value, TitleOf(info), DurationOf(info))
        else Rejected
  }

  /** One more step of the `append` loop over `fs[..i]`. */
  lemma FilterPrefixStep(fs: seq<Format>, i: nat)
    requires i < |fs|
    ensures Filter(IsAudioOnlyCandidate, fs[..i + 1])
      == Filter(IsAudioOnlyCandidate, fs[..i]) + if IsAudioOnlyCandidate(fs[i]) then [fs[i]] else []
  {
    assert fs[..i + 1] == fs[..i] + [fs[i]];
    FilterAppend(IsAudioOnlyCandidate, fs[..i], [fs[i]]);
    FilterCons(IsAudioOnlyCandidate, fs[i], []);
  }

  /** A prefix without a `None` URL stays so when the next URL is not `None`. */
  lemma NoNullUrlStep(fs: seq<Format>, i: nat)
    requires i < |fs| && !HasNullUrl(fs[..i]) && !fs[i].url.Null?
    ensures !HasNullUrl(fs[..i + 1])
  {
    assert forall j :: 0 <= j < i + 1 ==> fs[..i + 1][j] == fs[j];
    assert forall j :: 0 <= j < i ==> fs[..i][j] == fs[j];
  }

  /** Lines 87-115 once the gate has let them run: the `append` loop, the
      in-place sort and the `m4a` preference; `None` when the loop raises. */
  method SelectAudioOnly(formats: seq<Format>, current: string) returns (s: Option<string>)
    ensures s == Stage2(formats, current)
  {
    var audioFormats: seq<Format> := [];
    for i := 0 to |formats|
      invariant !HasNullUrl(formats[..i])
      invariant audioFormats == Filter(IsAudioOnlyCandidate, formats[..i])
    {
      var fmt := formats[i];
      FilterPrefixStep(formats, i);
      if fmt.url.Null? {
        assert HasNullUrl(formats) by { assert formats[i].url.Null?; }
        return None;  // 'storyboard' in None
      }
      NoNullUrlStep(formats, i);
      var urlFmt := UrlText(fmt);
      if IsDecoy(urlFmt) {
        continue;
      }
      if HasAudio(fmt) && NoVideo(fmt) {
        audioFormats := audioFormats + [fmt];
      }
    }
    assert formats[..|formats|] == formats;
    var audioUrl := current;
    if audioFormats != [] {
      SortedSelectionIsPreferred(audioFormats);
      audioFormats := SortByAbr(audioFormats);
      var m4aFormats := Filter(IsM4a, audioFormats);
      if m4aFormats != [] {
        audioUrl := UrlText(m4aFormats[0]);
      } else {
        audioUrl := UrlText(audioFormats[0]);
      }
    }
    s := Some(audioUrl);
  }

  /** Lines 118-131 once the gate has let them run: the scan with `break`;
      `None` when it meets a `None` URL first. */
  method SelectAnyAudio(formats: seq<Format>, current: string) returns (s: Option<string>)
    ensures s == Stage3(formats, current)
  {
    var audioUrl := current;
    for i := 0 to |formats|
      invariant audioUrl == current
      invariant Stage3(formats, current) == Stage3(formats[i..], current)
    {
      var fmt := formats[i];
      assert formats[i..][0] == fmt && formats[i..][1..] == formats[i + 1..];
      if fmt.url.Null? {
        return None;  // 'storyboard' in None
      }
      var urlFmt := UrlText(fmt);
      if IsDecoy(urlFmt) {
        continue;
      }
      if HasAudio(fmt) {
        audioUrl := urlFmt;
        assert Some(audioUrl) == Stage3(formats, current);
        break;
      }
    }
    s := Some(audioUrl);
  }

  /** The body of one persona's `try` block, after `extract_info` returned. */
  method ExtractAttempt(info: InfoRecord) returns (r: Attempt)
    ensures r == AttemptSpec(info)
  {
    var formats: seq<Format>;
    match info.formats {
      case Null => return Raised;  // len(None)
      case Absent => formats := [];
      case Present(fs) => formats := fs;
    }

    // Method 1: the library's own selection
    var audioUrl := "";
    match info.url {
      case Null => return Raised;  // None[:100]
      case Absent =>
      case Present(u) => audioUrl := u;
    }

    // Method 2: best audio-only format, m4a first
    if NeedsFallback(audioUrl) {
      var s := SelectAudioOnly(formats, audioUrl);
      if s.None? {
        return Raised;
      }
      audioUrl := s.value;
    }

    // Method 3: first format with audio
    if NeedsFallback(audioUrl) {
      var s := SelectAnyAudio(formats, audioUrl);
      if s.None? {
        return Raised;
      }
      audioUrl := s.value;
    }

    if PassesFinalCheck(audioUrl) {
      r := Accepted(audioUrl, TitleOf(info), DurationOf(info));
    } else {
      r := Rejected;
    }
  }
}
