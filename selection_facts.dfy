/** What one attempt promises (app.py:82-144), proved about `AttemptSpec`
    and its stages. */
module SelectionFacts {
  import opened Wrappers
  import opened Text
  import opened Formats
  import opened Ranking
  import opened Selection

  /** Stage 2 picks `fs[i]`: the first highest-bitrate `m4a` candidate when
      there is any `m4a` candidate at all, whatever the bitrate of the others;
      otherwise the first highest-bitrate audio-only candidate. */
  ghost predicate Stage2PicksAt(fs: seq<Format>, i: int)
  {
    if exists j | 0 <= j < |fs| :: IsM4aCandidate(fs[j])
    then IsFirstBestWhere(IsM4aCandidate, fs, i)
    else IsFirstBestWhere(IsAudioOnlyCandidate, fs, i)
  }

  /** Stage 2: raises on a `None` URL anywhere in the list, keeps the current
      URL when no audio-only candidate exists, and otherwise returns the URL of
      the format `Stage2PicksAt` describes. */
  lemma Stage2Selects(fs: seq<Format>, current: string)
    ensures HasNullUrl(fs) ==> Stage2(fs, current).None?
    ensures !HasNullUrl(fs) && (forall i | 0 <= i < |fs| :: !IsAudioOnlyCandidate(fs[i]))
      ==> Stage2(fs, current) == Some(current)
    ensures !HasNullUrl(fs) && (exists i | 0 <= i < |fs| :: IsAudioOnlyCandidate(fs[i]))
      ==> exists i :: Stage2PicksAt(fs, i) && Stage2(fs, current) == Some(UrlText(fs[i]))
  {
    var c := Filter(IsAudioOnlyCandidate, fs);
    if !HasNullUrl(fs) {
      if c == [] {
        forall i | 0 <= i < |fs| ensures !IsAudioOnlyCandidate(fs[i]) {
          FilterMembers(IsAudioOnlyCandidate, fs, fs[i]);
        }
      } else {
        var m := Filter(IsM4a, c);
        FilterM4aOfCandidates(fs);
        if m != [] {
          var k := FirstBestIndex(m);
          FilterFirstBest(IsM4aCandidate, fs, k);
          var i :| IsFirstBestWhere(IsM4aCandidate, fs, i) && fs[i] == m[k];
          assert PreferredFormat(c) == fs[i];
          assert Stage2PicksAt(fs, i);
        } else {
          forall j | 0 <= j < |fs| ensures !IsM4aCandidate(fs[j]) {
            FilterMembers(IsM4aCandidate, fs, fs[j]);
          }
          var k := FirstBestIndex(c);
          FilterFirstBest(IsAudioOnlyCandidate, fs, k);
          var i :| IsFirstBestWhere(IsAudioOnlyCandidate, fs, i) && fs[i] == c[k];
          assert PreferredFormat(c) == fs[i];
          assert Stage2PicksAt(fs, i);
        }
      }
    }
  }

  /** Whatever stage 2 returns is the current URL or the URL of an audio-only,
      non-decoy format. */
  lemma Stage2Origin(fs: seq<Format>, current: string)
    requires Stage2(fs, current).Some?
    ensures var u := Stage2(fs, current).value;
      u == current || exists i | 0 <= i < |fs| :: IsAudioOnlyCandidate(fs[i]) && u == UrlText(fs[i])
  {
    Stage2Selects(fs, current);
  }

  /** Stage 3 returns the URL of the first format with audio and a non-decoy
      URL, or raises if a `None` URL comes first. */
  lemma {:induction false} Stage3PicksFirst(fs: seq<Format>, current: string, k: int)
    requires 0 <= k < |fs|
    requires forall j | 0 <= j < k :: !fs[j].url.Null? && !IsAnyAudioCandidate(fs[j])
    requires fs[k].url.Null? || IsAnyAudioCandidate(fs[k])
    ensures Stage3(fs, current) == if fs[k].url.Null? then None else Some(UrlText(fs[k]))
  {
    if k > 0 {
      Stage3PicksFirst(fs[1..], current, k - 1);
    }
  }

  /** Stage 3 keeps the current URL when no format qualifies. */
  lemma {:induction false} Stage3KeepsCurrent(fs: seq<Format>, current: string)
    requires forall j | 0 <= j < |fs| :: !fs[j].url.Null? && !IsAnyAudioCandidate(fs[j])
    ensures Stage3(fs, current) == Some(current)
  {
    if fs != [] {
      Stage3KeepsCurrent(fs[1..], current);
    }
  }

  /** Whatever stage 3 returns is the current URL or the URL of a non-decoy
      format with audio. */
  lemma {:induction false} Stage3Origin(fs: seq<Format>, current: string)
    requires Stage3(fs, current).Some?
    ensures var u := Stage3(fs, current).value;
      u == current || exists i | 0 <= i < |fs| :: IsAnyAudioCandidate(fs[i]) && u == UrlText(fs[i])
  {
    if fs != [] && !fs[0].url.Null? && !IsAnyAudioCandidate(fs[0]) {
      Stage3Origin(fs[1..], current);
      var u := Stage3(fs, current).value;
      if u != current {
        var i :| 0 <= i < |fs[1..]| && IsAnyAudioCandidate(fs[1..][i]) && u == UrlText(fs[1..][i]);
        assert fs[i + 1] == fs[1..][i];
      }
    }
  }

  /** An accepted URL is the top-level URL or the URL of a non-decoy format
      with audio: a decoy format is never chosen by stage 2 or stage 3. */
  lemma AcceptedUrlOrigin(info: InfoRecord)
    requires AttemptSpec(info).Accepted?
    ensures var u := AttemptSpec(info).audioUrl;
      var fs := FormatList(info);
      u == TopUrl(info) || exists i | 0 <= i < |fs| :: IsAnyAudioCandidate(fs[i]) && u == UrlText(fs[i])
  {
    var fs := FormatList(info);
    var u1 := TopUrl(info);
    if NeedsFallback(u1) {
      Stage2Origin(fs, u1);
    }
    var u2 := if NeedsFallback(u1) then Stage2(fs, u1).value else u1;
    if NeedsFallback(u2) {
      Stage3Origin(fs, u2);
    }
  }

  /** A top-level URL without `storyboard` or `jpg` is taken as it is and the
      format list is never looked at: the attempt is accepted with it, unless
      it contains `.png`, in which case the attempt is rejected outright. */
  lemma CleanTopUrlDecidesAttempt(info: InfoRecord)
    requires info.url.Present? && !info.formats.Null?
    requires !NeedsFallback(info.url.value)
    ensures var u := info.url.value;
      AttemptSpec(info) == if Contains(u, ".png") then Rejected
                           else Accepted(u, TitleOf(info), DurationOf(info))
  {
    var u := info.url.value;
    if Contains(u, ".jpg") {
      DotJpgContainsJpg(u);
    }
  }

  /** An attempt raises exactly when the record's format list or top-level URL
      is `None`, or when the top-level URL needs the fallback and some format
      URL is `None`. Stage 3 never raises on its own: it runs only after
      stage 2 has met every format URL without raising. */
  lemma AttemptRaisesExactly(info: InfoRecord)
    ensures AttemptSpec(info) == Raised <==>
      || info.formats.Null? || info.url.Null?
      || (NeedsFallback(TopUrl(info)) && HasNullUrl(FormatList(info)))
    ensures info.formats.Present? || info.formats.Absent? ==>
      var fs := FormatList(info);
      var u1 := TopUrl(info);
      !info.url.Null? && NeedsFallback(u1) && Stage2(fs, u1).Some? ==>
        Stage3(fs, Stage2(fs, u1).value).Some?
  {
  }
}
