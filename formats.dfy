/** The records the extraction library hands back (app.py:72-131): one info
    record per attempt, holding a list of format descriptors. */
module Formats {
  import opened Text

  /** A dictionary entry as Python sees it: the key is missing, present with
      the value `None`, or present with a value. */
  datatype Field<T> = Absent | Null | Present(value: T)

  /** A format descriptor: `acodec`, `vcodec`, `url`, `ext` and `abr`. */
  datatype Format = Format(
    acodec: Field<string>,
    vcodec: Field<string>,
    url: Field<string>,
    ext: Field<string>,
    abr: Field<real>)

  /** An info record: top-level `url`, `title`, `duration` and `formats`. */
  datatype InfoRecord = InfoRecord(
    url: Field<string>,
    title: Field<string>,
    duration: Field<real>,
    formats: Field<seq<Format>>)

  /** `fmt.get('acodec', 'none') != 'none'`: a missing codec counts as 'none',
      a `None` value does not. */
  predicate HasAudio(f: Format)
  {
    !(f.acodec.Absent? || f.acodec == Present("none"))
  }

  /** `fmt.get('vcodec', 'none') == 'none'`. */
  predicate NoVideo(f: Format)
  {
    f.vcodec.Absent? || f.vcodec == Present("none")
  }

  /** `f.get('ext') == 'm4a'`. */
  predicate IsM4a(f: Format)
  {
    f.ext == Present("m4a")
  }

  /** The sort key `x.get('abr', 0) or 0`: a missing or `None` bitrate is 0. */
  function Abr(f: Format): real
  {
    if f.abr.Present? then f.abr.value else 0.0
  }

  /** `fmt.get('url', '')`, and `fmt.get('url')` read only for its truth value:
      a missing URL is the empty string. */
  function UrlText(f: Format): string
  {
    if f.url.Present? then f.url.value else ""
  }

  /** The decoy test of lines 96, 125 and 134: storyboard, `.jpg` or `.png`. */
  predicate IsDecoy(u: string)
  {
    Contains(u, "storyboard") || Contains(u, ".jpg") || Contains(u, ".png")
  }

  /** Each of the three markers makes a URL a decoy wherever it occurs. */
  lemma DecoyWherever(a: string, m: string, b: string)
    requires m == "storyboard" || m == ".jpg" || m == ".png"
    ensures IsDecoy(a + m + b)
  {
    var u := a + m + b;
    assert u[|a|..|a| + |m|] == m;
    assert OccursAt(u, m, |a|);
  }

  /** How `get` with a default reads a missing key and a `None` value: a
      missing codec is `'none'` while a `None` codec is not; a missing or
      `None` bitrate sorts as 0; a missing URL is the empty string. */
  lemma MissingAndNoneFields(f: Format)
    ensures f.acodec.Absent? ==> !HasAudio(f)
    ensures f.acodec.Null? ==> HasAudio(f)
    ensures f.vcodec.Absent? ==> NoVideo(f)
    ensures f.vcodec.Null? ==> !NoVideo(f)
    ensures !f.abr.Present? ==> Abr(f) == 0.0
    ensures f.url.Absent? ==> UrlText(f) == "" && !IsDecoy(UrlText(f))
  {
  }

  /** A format stage 2 keeps: not a decoy, has audio, has no video. */
  predicate IsAudioOnlyCandidate(f: Format)
  {
    !IsDecoy(UrlText(f)) && HasAudio(f) && NoVideo(f)
  }

  /** An audio-only candidate in the `m4a` container. */
  predicate IsM4aCandidate(f: Format)
  {
    IsAudioOnlyCandidate(f) && IsM4a(f)
  }

  /** A format stage 3 accepts: not a decoy and has audio. */
  predicate IsAnyAudioCandidate(f: Format)
  {
    !IsDecoy(UrlText(f)) && HasAudio(f)
  }

  /** The list comprehension `[f for f in s if p(f)]`. */
  function Filter(p: Format -> bool, s: seq<Format>): (r: seq<Format>)
    ensures |r| <= |s|
  {
    if s == [] then [] else (if p(s[0]) then [s[0]] else []) + Filter(p, s[1..])
  }

  /** The filtered list holds exactly the elements of `s` that satisfy `p`. */
  lemma {:induction false} FilterMembers(p: Format -> bool, s: seq<Format>, x: Format)
    ensures x in Filter(p, s) <==> x in s && p(x)
  {
    if s != [] {
      FilterMembers(p, s[1..], x);
      assert s == [s[0]] + s[1..];
    }
  }

  /** Filtering distributes over concatenation; the `append` loop relies on it. */
  lemma {:induction false} FilterAppend(p: Format -> bool, s: seq<Format>, t: seq<Format>)
    ensures Filter(p, s + t) == Filter(p, s) + Filter(p, t)
  {
    if s == [] {
      assert s + t == t;
    } else {
      var st := s + t;
      assert st[0] == s[0] && st[1..] == s[1..] + t;
      FilterAppend(p, s[1..], t);
      var head := if p(s[0]) then [s[0]] else [];
      assert Filter(p, st) == head + Filter(p, s[1..] + t);
      assert Filter(p, s) == head + Filter(p, s[1..]);
      assert head + (Filter(p, s[1..]) + Filter(p, t)) == (head + Filter(p, s[1..])) + Filter(p, t);
    }
  }

  /** Filtering twice is filtering once by the conjunction. */
  lemma {:induction false} FilterFilter(p: Format -> bool, q: Format -> bool, pq: Format -> bool, s: seq<Format>)
    requires forall x :: pq(x) == (p(x) && q(x))
    ensures Filter(q, Filter(p, s)) == Filter(pq, s)
  {
    if s != [] {
      FilterFilter(p, q, pq, s[1..]);
      var c := Filter(p, s[1..]);
      if p(s[0]) {
        var fc := [s[0]] + c;
        assert Filter(p, s) == fc && fc[0] == s[0] && fc[1..] == c;
        assert Filter(q, fc) == (if q(s[0]) then [s[0]] else []) + Filter(q, c);
      } else {
        assert Filter(p, s) == c;
      }
    }
  }

  /** Keeping the `m4a` formats of the audio-only candidates keeps exactly the
      `m4a` candidates, in the same order. */
  lemma FilterM4aOfCandidates(s: seq<Format>)
    ensures Filter(IsM4a, Filter(IsAudioOnlyCandidate, s)) == Filter(IsM4aCandidate, s)
  {
    FilterFilter(IsAudioOnlyCandidate, IsM4a, IsM4aCandidate, s);
  }
}
