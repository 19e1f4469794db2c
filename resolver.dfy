/** The persona loop of `extract_audio_info` (app.py:56-158). */
module Resolver {
  import opened Wrappers
  import opened Formats
  import opened Selection

  /** The clients tried, in order (lines 57-61). */
  const Personas: seq<string> := ["ios", "android", "web"]

  /** The message of the exception raised once every persona failed (line 151). */
  const AllFailedMessage: string :=
    "All extraction methods failed. YouTube may have updated their protection mechanisms."

  /** What `ydl.extract_info` did for one persona: raised, or returned a record. */
  datatype Upstream = Threw | Returned(info: InfoRecord)

  /** The dictionary `extract_audio_info` returns: the success record of
      lines 136-142 (`success` is true) or the failure record of lines 155-158
      (`success` is false). */
  datatype Response =
    | Success(audioUrl: string, title: Option<string>, duration: Option<real>, extractionMethod: string)
    | Failure(error: string)

  /** One persona's attempt, an exception from the library included. */
  function AttemptOf(o: Upstream): Attempt
  {
    match o
    case Threw => Raised
    case Returned(info) => AttemptSpec(info)
  }

  /** The personas from the `k`-th on, tried in order: a success names one of
      them and carries a URL that passed the final check; a failure is the
      fixed record of line 151. */
  function ResolveFrom(outcomes: seq<Upstream>, k: nat): (r: Response)
    requires |outcomes| == |Personas|
    ensures r.Success? ==>
      && (exists j | k <= j < |Personas| :: r.extractionMethod == Personas[j])
      && PassesFinalCheck(r.audioUrl)
    ensures r.Failure? ==> r.error == AllFailedMessage
    decreases |Personas| - k
  {
    if k >= |Personas| then Failure(AllFailedMessage)
    else
      var a := AttemptOf(outcomes[k]);
      if a.Accepted? then Success(a.audioUrl, a.title, a.duration, Personas[k])
      else ResolveFrom(outcomes, k + 1)
  }

  /** What `extract_audio_info` returns, given the library's outcome for each
      persona (`outcomes[k]` for `Personas[k]`). */
  function Resolution(outcomes: seq<Upstream>): (r: Response)
    requires |outcomes| == |Personas|
    ensures r.Success? ==> r.extractionMethod in Personas && PassesFinalCheck(r.audioUrl)
    ensures r.Failure? ==> r.error == AllFailedMessage
  {
    ResolveFrom(outcomes, 0)
  }

  /** `extract_audio_info(url, format_preference)`: the persona `for` loop with
      `continue` on an exception and an early `return` on the first accepted
      attempt. `formatPreference` is accepted and never read. */
  method ExtractAudioInfo(formatPreference: string, outcomes: seq<Upstream>) returns (r: Response)
    requires |outcomes| == |Personas|
    ensures r == Resolution(outcomes)
  {
    for k := 0 to |Personas|
      invariant Resolution(outcomes) == ResolveFrom(outcomes, k)
    {
      var client := Personas[k];
      var attempt: Attempt;
      match outcomes[k] {
        case Threw =>
          continue;
        case Returned(info) =>
          attempt := ExtractAttempt(info);
      }
      if attempt.Accepted? {
        return Success(attempt.audioUrl, attempt.title, attempt.duration, client);
      }
    }
    r := Failure(AllFailedMessage);
  }

  /** The first accepted persona decides: the result is a success exactly when
      some persona's attempt is accepted; then `extractionMethod` names the
      first such persona, every earlier persona failed, and the URL, title and
      duration are that attempt's; otherwise it is the fixed failure record. */
  lemma {:induction false} ResolveFromFirstAccepted(outcomes: seq<Upstream>, k: nat)
    requires |outcomes| == |Personas| && k <= |Personas|
    ensures ResolveFrom(outcomes, k).Success? <==>
      exists m | k <= m < |Personas| :: AttemptOf(outcomes[m]).Accepted?
    ensures ResolveFrom(outcomes, k).Failure? ==> ResolveFrom(outcomes, k) == Failure(AllFailedMessage)
    ensures ResolveFrom(outcomes, k).Success? ==>
      exists m | k <= m < |Personas| ::
        && AttemptOf(outcomes[m]).Accepted?
        && (forall j | k <= j < m :: !AttemptOf(outcomes[j]).Accepted?)
        && var a := AttemptOf(outcomes[m]);
           ResolveFrom(outcomes, k) == Success(a.audioUrl, a.title, a.duration, Personas[m])
    decreases |Personas| - k
  {
    if k < |Personas| && !AttemptOf(outcomes[k]).Accepted? {
      ResolveFromFirstAccepted(outcomes, k + 1);
      if ResolveFrom(outcomes, k).Success? {
        var m :| k + 1 <= m < |Personas| && AttemptOf(outcomes[m]).Accepted?
          && (forall j | k + 1 <= j < m :: !AttemptOf(outcomes[j]).Accepted?)
          && var a := AttemptOf(outcomes[m]);
             ResolveFrom(outcomes, k + 1) == Success(a.audioUrl, a.title, a.duration, Personas[m]);
        assert forall j | k <= j < m :: !AttemptOf(outcomes[j]).Accepted?;
      }
    }
  }

  /** The whole loop: see `ResolveFromFirstAccepted`, from the first persona. */
  lemma ResolutionPicksFirstAccepted(outcomes: seq<Upstream>)
    requires |outcomes| == |Personas|
    ensures Resolution(outcomes).Success? <==>
      exists m | 0 <= m < |Personas| :: AttemptOf(outcomes[m]).Accepted?
    ensures Resolution(outcomes).Failure? ==> Resolution(outcomes) == Failure(AllFailedMessage)
    ensures Resolution(outcomes).Success? ==>
      exists m | 0 <= m < |Personas| ::
        && AttemptOf(outcomes[m]).Accepted?
        && (forall j | 0 <= j < m :: !AttemptOf(outcomes[j]).Accepted?)
        && var a := AttemptOf(outcomes[m]);
           Resolution(outcomes) == Success(a.audioUrl, a.title, a.duration, Personas[m])
  {
    ResolveFromFirstAccepted(outcomes, 0);
  }

  /** If `extractionMethod` is the `k`-th persona, the `k` personas before it
      all failed and the `k`-th was accepted (the persona names are distinct). */
  lemma ExtractionMethodIdentifiesAttempt(outcomes: seq<Upstream>, k: int)
    requires |outcomes| == |Personas| && 0 <= k < |Personas|
    requires Resolution(outcomes).Success? && Resolution(outcomes).extractionMethod == Personas[k]
    ensures AttemptOf(outcomes[k]).Accepted?
    ensures forall j | 0 <= j < k :: !AttemptOf(outcomes[j]).Accepted?
  {
    ResolutionPicksFirstAccepted(outcomes);
    var m :| 0 <= m < |Personas| && AttemptOf(outcomes[m]).Accepted?
      && (forall j | 0 <= j < m :: !AttemptOf(outcomes[j]).Accepted?)
      && var a := AttemptOf(outcomes[m]);
         Resolution(outcomes) == Success(a.audioUrl, a.title, a.duration, Personas[m]);
    assert Personas[0] != Personas[1] && Personas[0] != Personas[2] && Personas[1] != Personas[2];
    assert m == k;
  }

  /** A success carries a non-empty URL free of `storyboard`, `.jpg` and `.png`. */
  lemma SuccessUrlIsClean(outcomes: seq<Upstream>)
    requires |outcomes| == |Personas|
    requires Resolution(outcomes).Success?
    ensures PassesFinalCheck(Resolution(outcomes).audioUrl)
    ensures Resolution(outcomes).audioUrl != ""
    ensures !IsDecoy(Resolution(outcomes).audioUrl)
  {
    ResolutionPicksFirstAccepted(outcomes);
  }
}
