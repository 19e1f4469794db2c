/** Ranking of audio-only formats by bitrate (app.py:104-115): Python's
    stable `list.sort(key=abr, reverse=True)`, the `m4a` filter that follows
    it, and an independent reference choice, "the first format with the
    highest bitrate", that the sorted selection is proved to agree with. */
module Ranking {
  import opened Formats

  /** Bitrates never increase along the list. */
  ghost predicate SortedByAbr(s: seq<Format>)
  {
    forall i, j :: 0 <= i < j < |s| ==> Abr(s[i]) >= Abr(s[j])
  }

  /** Insert `x` in front of the first element whose bitrate it reaches, so
      that `x` stays ahead of every later element with an equal bitrate. */
  function Insert(x: Format, t: seq<Format>): (r: seq<Format>)
    ensures multiset(r) == multiset(t) + multiset{x}
  {
    if t == [] then [x]
    else if Abr(x) >= Abr(t[0]) then [x] + t
    else
      assert t == [t[0]] + t[1..];
      [t[0]] + Insert(x, t[1..])
  }

  /** Inserting into a sorted list keeps it sorted. */
  lemma {:induction false} InsertSorted(x: Format, t: seq<Format>)
    requires SortedByAbr(t)
    ensures SortedByAbr(Insert(x, t))
  {
    if t != [] && Abr(x) < Abr(t[0]) {
      var rest := Insert(x, t[1..]);
      InsertSorted(x, t[1..]);
      forall j | 0 <= j < |rest| ensures Abr(rest[j]) <= Abr(t[0]) {
        assert rest[j] in multiset(rest);
        if rest[j] != x {
          assert rest[j] in multiset(t[1..]);
          var i :| 0 <= i < |t[1..]| && t[1..][i] == rest[j];
          assert t[i + 1] == rest[j];
        }
      }
      var r := [t[0]] + rest;
      forall i, j | 0 <= i < j < |r| ensures Abr(r[i]) >= Abr(r[j]) {
        if i > 0 {
          assert r[i] == rest[i - 1] && r[j] == rest[j - 1];
        } else {
          assert r[j] == rest[j - 1];
        }
      }
    }
  }

  /** `audio_formats.sort(key=lambda x: x.get('abr', 0) or 0, reverse=True)`:
      a stable sort by descending bitrate (equal bitrates keep list order). */
  function SortByAbr(s: seq<Format>): (r: seq<Format>)
    ensures multiset(r) == multiset(s)
    ensures |r| == |s|
    ensures SortedByAbr(r)
  {
    if s == [] then []
    else
      assert s == [s[0]] + s[1..];
      InsertSorted(s[0], SortByAbr(s[1..]));
      Insert(s[0], SortByAbr(s[1..]))
  }

  /** `u[k]` has the highest bitrate in `u` and no earlier element reaches it. */
  ghost predicate IsFirstBest(u: seq<Format>, k: int)
  {
    && 0 <= k < |u|
    && (forall j :: 0 <= j < |u| ==> Abr(u[j]) <= Abr(u[k]))
    && (forall j :: 0 <= j < k ==> Abr(u[j]) < Abr(u[k]))
  }

  /** Reference choice: the position of the first highest-bitrate element. */
  function FirstBestIndex(u: seq<Format>): (k: nat)
    requires u != []
    ensures IsFirstBest(u, k)
  {
    if |u| == 1 then 0
    else
      var k := FirstBestIndex(u[1..]);
      if Abr(u[0]) >= Abr(u[k + 1]) then 0 else k + 1
  }

  /** Stage 2's choice among the audio-only candidates `c`: the first best
      `m4a` if there is any `m4a`, otherwise the first best of them all. */
  function PreferredFormat(c: seq<Format>): Format
    requires c != []
  {
    var m4a := Filter(IsM4a, c);
    if m4a != [] then m4a[FirstBestIndex(m4a)] else c[FirstBestIndex(c)]
  }

  /** The head of the sorted list is an element of the list. */
  lemma SortHeadIsMember(u: seq<Format>)
    requires u != []
    ensures SortByAbr(u)[0] in u
  {
    assert SortByAbr(u)[0] in multiset(SortByAbr(u));
  }

  /** The head of the stable sort is the first highest-bitrate element. */
  lemma {:induction false} SortHeadIsFirstBest(u: seq<Format>, k: int)
    requires IsFirstBest(u, k)
    ensures SortByAbr(u)[0] == u[k]
  {
    if |u| > 1 {
      var t := SortByAbr(u[1..]);
      SortCons(u[0], u[1..]);
      assert u == [u[0]] + u[1..];
      if k == 0 {
        SortHeadIsMember(u[1..]);
        var j :| 0 <= j < |u[1..]| && u[1..][j] == t[0];
        assert u[j + 1] == t[0];
        InsertFront(u[0], t);
      } else {
        assert IsFirstBest(u[1..], k - 1);
        SortHeadIsFirstBest(u[1..], k - 1);
        assert t[0] == u[k];
        InsertBehind(u[0], t);
      }
    }
  }

  /** `Insert` when `x` reaches the head's bitrate. */
  lemma InsertFront(x: Format, t: seq<Format>)
    requires t != [] && Abr(x) >= Abr(t[0])
    ensures Insert(x, t) == [x] + t
  {
  }

  /** `Insert` when the head's bitrate is higher than `x`'s. */
  lemma InsertBehind(x: Format, t: seq<Format>)
    requires t != [] && Abr(x) < Abr(t[0])
    ensures Insert(x, t) == [t[0]] + Insert(x, t[1..])
  {
  }

  /** The tail of a sorted list is sorted. */
  lemma SortedTail(t: seq<Format>)
    requires t != [] && SortedByAbr(t)
    ensures SortedByAbr(t[1..])
  {
    assert forall i :: 0 <= i < |t[1..]| ==> t[1..][i] == t[i + 1];
  }

  /** Inserting an element that reaches every bitrate of `t` puts it in front. */
  lemma InsertInFront(x: Format, t: seq<Format>)
    requires forall e :: e in t ==> Abr(e) <= Abr(x)
    ensures Insert(x, t) == [x] + t
  {
    if t != [] {
      assert t[0] in t;
    }
  }

  /** In a sorted list no element has a higher bitrate than the head. */
  lemma HeadIsHighest(t: seq<Format>, e: Format)
    requires SortedByAbr(t) && e in t
    ensures Abr(e) <= Abr(t[0])
  {
    var i :| 0 <= i < |t| && t[i] == e;
  }

  /** `Filter` on a list with a known head. */
  lemma FilterCons(p: Format -> bool, y: Format, s: seq<Format>)
    ensures Filter(p, [y] + s) == (if p(y) then [y] else []) + Filter(p, s)
  {
    var ys := [y] + s;
    assert ys[0] == y && ys[1..] == s;
  }

  /** Filtering after inserting into a sorted list is inserting into the
      filtered list (or not inserting at all). */
  lemma {:induction false} FilterInsert(p: Format -> bool, x: Format, t: seq<Format>)
    requires SortedByAbr(t)
    ensures Filter(p, Insert(x, t)) == if p(x) then Insert(x, Filter(p, t)) else Filter(p, t)
    decreases |t|, 1
  {
    if t == [] {
      FilterCons(p, x, []);
    } else if Abr(x) >= Abr(t[0]) {
      FilterInsertFront(p, x, t);
    } else {
      FilterInsertBehind(p, x, t);
    }
  }

  /** `FilterInsert` when `x` reaches the bitrate of the head of `t` and goes in front. */
  lemma FilterInsertFront(p: Format -> bool, x: Format, t: seq<Format>)
    requires SortedByAbr(t) && t != [] && Abr(x) >= Abr(t[0])
    ensures Filter(p, Insert(x, t)) == if p(x) then Insert(x, Filter(p, t)) else Filter(p, t)
  {
    assert Insert(x, t) == [x] + t;
    FilterCons(p, x, t);
    if p(x) {
      var ft := Filter(p, t);
      forall e | e in ft ensures Abr(e) <= Abr(x) {
        FilterMembers(p, t, e);
        HeadIsHighest(t, e);
      }
      InsertInFront(x, ft);
    }
  }

  /** `FilterInsert` when `x` is below the head of `t` and goes behind it. */
  lemma {:induction false} FilterInsertBehind(p: Format -> bool, x: Format, t: seq<Format>)
    requires SortedByAbr(t) && t != [] && Abr(x) < Abr(t[0])
    ensures Filter(p, Insert(x, t)) == if p(x) then Insert(x, Filter(p, t)) else Filter(p, t)
    decreases |t|, 0
  {
    var rest := Insert(x, t[1..]);
    var f1 := Filter(p, t[1..]);
    var head := if p(t[0]) then [t[0]] else [];
    assert Insert(x, t) == [t[0]] + rest by {
      InsertBehind(x, t);
    }
    assert Filter(p, t) == head + f1 by {
      assert t == [t[0]] + t[1..];
      FilterCons(p, t[0], t[1..]);
    }
    assert Filter(p, rest) == if p(x) then Insert(x, f1) else f1 by {
      SortedTail(t);
      FilterInsert(p, x, t[1..]);
    }
    InsertBehindStep(p, x, t[0], rest, f1);
  }

  /** The algebra of one step of `FilterInsertBehind`. */
  lemma InsertBehindStep(p: Format -> bool, x: Format, t0: Format, rest: seq<Format>, f1: seq<Format>)
    requires Abr(x) < Abr(t0)
    requires Filter(p, rest) == if p(x) then Insert(x, f1) else f1
    ensures var head := if p(t0) then [t0] else [];
            Filter(p, [t0] + rest) == if p(x) then Insert(x, head + f1) else head + f1
  {
    FilterCons(p, t0, rest);
    var head := if p(t0) then [t0] else [];
    if p(x) {
      if p(t0) {
        var tf := [t0] + f1;
        assert tf[0] == t0 && tf[1..] == f1;
        assert Insert(x, tf) == [t0] + Insert(x, f1);
      } else {
        assert head + Insert(x, f1) == Insert(x, f1);
        assert head + f1 == f1;
      }
    }
  }

  /** `SortByAbr` on a list with a known head. */
  lemma SortCons(y: Format, s: seq<Format>)
    ensures SortByAbr([y] + s) == Insert(y, SortByAbr(s))
  {
    var ys := [y] + s;
    assert ys[0] == y && ys[1..] == s;
  }

  /** The stable sort commutes with filtering. */
  lemma {:induction false} SortFilterCommute(p: Format -> bool, c: seq<Format>)
    ensures Filter(p, SortByAbr(c)) == SortByAbr(Filter(p, c))
  {
    if c != [] {
      var s1 := SortByAbr(c[1..]);
      assert c == [c[0]] + c[1..];
      SortCons(c[0], c[1..]);
      SortFilterCommute(p, c[1..]);
      FilterInsert(p, c[0], s1);
      FilterCons(p, c[0], c[1..]);
      if p(c[0]) {
        SortCons(c[0], Filter(p, c[1..]));
      } else {
        assert Filter(p, c) == Filter(p, c[1..]);
      }
    }
  }

  /** What lines 106-115 pick (the head of the `m4a` part of the sorted list
      if it has one, else the head of the sorted list) is `PreferredFormat`. */
  lemma SortedSelectionIsPreferred(c: seq<Format>)
    requires c != []
    ensures SortByAbr(c) != []
    ensures var sorted := SortByAbr(c);
            var m4a := Filter(IsM4a, sorted);
            (if m4a != [] then m4a[0] else sorted[0]) == PreferredFormat(c)
  {
    var m := Filter(IsM4a, c);
    SortFilterCommute(IsM4a, c);
    if m != [] {
      SortHeadIsFirstBest(m, FirstBestIndex(m));
    } else {
      SortHeadIsFirstBest(c, FirstBestIndex(c));
    }
  }

  /** `s[i]` satisfies `p`, no element satisfying `p` has a higher bitrate,
      and every earlier element satisfying `p` has a strictly lower one. */
  ghost predicate IsFirstBestWhere(p: Format -> bool, s: seq<Format>, i: int)
  {
    && 0 <= i < |s| && p(s[i])
    && (forall j :: 0 <= j < |s| && p(s[j]) ==> Abr(s[j]) <= Abr(s[i]))
    && (forall j :: 0 <= j < i && p(s[j]) ==> Abr(s[j]) < Abr(s[i]))
  }

  /** A first best position in the tail is one in the whole list, once the
      head is out of the way. */
  lemma ShiftFirstBestWhere(p: Format -> bool, s: seq<Format>, i: int)
    requires s != [] && IsFirstBestWhere(p, s[1..], i)
    requires p(s[0]) ==> Abr(s[0]) < Abr(s[1..][i])
    ensures IsFirstBestWhere(p, s, i + 1)
  {
    assert forall j :: 1 <= j < |s| ==> s[j] == s[1..][j - 1];
  }

  /** The first best element of a filtered list, seen in the original list. */
  lemma {:induction false} FilterFirstBest(p: Format -> bool, s: seq<Format>, k: int)
    requires IsFirstBest(Filter(p, s), k)
    ensures exists i :: IsFirstBestWhere(p, s, i) && s[i] == Filter(p, s)[k]
  {
    var f := Filter(p, s);
    var f1 := Filter(p, s[1..]);
    assert s == [s[0]] + s[1..];
    FilterCons(p, s[0], s[1..]);
    if p(s[0]) {
      assert f == [s[0]] + f1 && f[0] == s[0] && f[1..] == f1;
      if k == 0 {
        forall j | 0 <= j < |s| && p(s[j]) ensures Abr(s[j]) <= Abr(s[0]) {
          FilterMembers(p, s, s[j]);
        }
        assert IsFirstBestWhere(p, s, 0);
      } else {
        assert IsFirstBest(f1, k - 1);
        FilterFirstBest(p, s[1..], k - 1);
        var i :| IsFirstBestWhere(p, s[1..], i) && s[1..][i] == f1[k - 1];
        assert Abr(s[0]) < Abr(f[k]);
        ShiftFirstBestWhere(p, s, i);
        assert s[i + 1] == f[k];
      }
    } else {
      assert f == f1;
      FilterFirstBest(p, s[1..], k);
      var i :| IsFirstBestWhere(p, s[1..], i) && s[1..][i] == f1[k];
      ShiftFirstBestWhere(p, s, i);
      assert s[i + 1] == f[k];
    }
  }
}
