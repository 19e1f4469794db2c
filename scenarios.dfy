/** Whole-resolution consequences for typical upstream answers. */
module Scenarios {
  import opened Wrappers
  import opened Text
  import opened Formats
  import opened Selection
  import opened SelectionFacts
  import opened Resolver

  /** The first persona returns no top-level URL and a single audio-only
      `m4a` format at 128 kbps with a clean URL: resolution succeeds at once
      with that URL, tagged `ios`, whatever the later personas would do. */
  lemma FirstPersonaM4aSucceeds(u: string, title: string, duration: real, later: seq<Upstream>)
    requires PassesFinalCheck(u)
    requires |later| == |Personas| - 1
    ensures var f := Format(Present("mp4a.40.2"), Present("none"), Present(u), Present("m4a"), Present(128.0));
      var info := InfoRecord(Absent, Present(title), Present(duration), Present([f]));
      Resolution([Returned(info)] + later) == Success(u, Some(title), Some(duration), "ios")
  {
    var f := Format(Present("mp4a.40.2"), Present("none"), Present(u), Present("m4a"), Present(128.0));
    var info := InfoRecord(Absent, Present(title), Present(duration), Present([f]));
    assert IsAudioOnlyCandidate(f);
    Stage2Selects([f], "");
    assert !HasNullUrl([f]);
    assert Stage2([f], "") == Some(u);
    if NeedsFallback(u) {
      Stage3PicksFirst([f], u, 0);
    }
    assert AttemptSpec(info) == Accepted(u, Some(title), Some(duration));
  }

  /** A persona whose record has no top-level URL and only decoy formats is
      rejected, and resolution moves on to the next persona. */
  lemma DecoyOnlyAnswerMovesOn(info: InfoRecord, outcomes: seq<Upstream>, k: nat)
    requires |outcomes| == |Personas| && k < |Personas| && outcomes[k] == Returned(info)
    requires info.url.Absent? && !info.formats.Null?
    requires forall i | 0 <= i < |FormatList(info)| ::
      FormatList(info)[i].url.Present? && IsDecoy(FormatList(info)[i].url.value)
    ensures AttemptOf(outcomes[k]) == Rejected
    ensures ResolveFrom(outcomes, k) == ResolveFrom(outcomes, k + 1)
  {
    var fs := FormatList(info);
    Stage2Selects(fs, "");
    Stage3KeepsCurrent(fs, "");
  }
}
