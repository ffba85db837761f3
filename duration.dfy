/** Gap-protected session duration and the run total, all in whole seconds. */
module Duration {
  import opened Text
  import opened Commits
  import opened Sessions

  /** A gap longer than this (four hours) is not credited as it is ... */
  const MaxGapSeconds: int := 14400
  /** ... but as this (one hour). */
  const MaxGapCredit: int := 3600

  /** The gap protection rule for one gap between consecutive commits. */
  function Credit(gap: int): (r: int)
    ensures 0 <= gap ==> 0 <= r <= MaxGapSeconds && r <= gap
  {
    if gap > MaxGapSeconds then MaxGapCredit else gap
  }

  /** The credited gaps of consecutive timestamps, summed from the left. */
  function CreditedSum(ts: seq<int>): int
    decreases |ts|
  {
    if |ts| < 2 then 0
    else CreditedSum(ts[..|ts| - 1]) + Credit(ts[|ts| - 1] - ts[|ts| - 2])
  }

  /** The commits of a complete session: start, intermediates, end. */
  function AllCommits(s: Session): seq<Commit>
    requires IsComplete(s)
  {
    [s.start] + s.intermediates + [s.end.value]
  }

  /** `calculate_duration`: 0 for an open session; otherwise the credited
      gaps of the session's commits taken in timestamp order. */
  function SessionDuration(s: Session): int
  {
    if !IsComplete(s) then 0 else CreditedSum(Times(SortByTime(AllCommits(s))))
  }

  /** The loop of `calculate_duration`: sorts the commits and adds up the
      credited gaps one pair at a time. */
  method CalculateDuration(s: Session) returns (total: int)
    ensures total == SessionDuration(s)
  {
    if !IsComplete(s) {
      return 0;
    }
    var all := SortByTime(AllCommits(s));
    var ts := Times(all);
    total := 0;
    for i := 1 to |all|
      invariant total == CreditedSum(ts[..i])
    {
      TimesAt(all, i);
      TimesAt(all, i - 1);
      var gap := all[i].timestamp - all[i - 1].timestamp;
      var credited := if gap > MaxGapSeconds then MaxGapCredit else gap;
      assert ts[..i + 1][..i] == ts[..i];
      total := total + credited;
    }
    assert ts[..|all|] == ts;
  }

  // -----------------------------------------------------------------------
  // Bounds
  // -----------------------------------------------------------------------

  /** On sorted timestamps every credited gap lies between 0 and four hours,
      so the sum is at least 0, at most four hours per gap, and never more
      than the wall-clock span from the first to the last commit. */
  lemma {:induction false} CreditedSumBounds(ts: seq<int>)
    requires SortedInts(ts) && |ts| >= 1
    ensures 0 <= CreditedSum(ts) <= MaxGapSeconds * (|ts| - 1)
    ensures CreditedSum(ts) <= ts[|ts| - 1] - ts[0]
  {
    if |ts| >= 2 {
      var init := ts[..|ts| - 1];
      CreditedSumBounds(init);
      assert init[|init| - 1] == ts[|ts| - 2] && init[0] == ts[0];
      assert ts[|ts| - 2] <= ts[|ts| - 1];
    }
  }

  /** When no gap exceeds four hours the sum is the raw span; when every gap
      does, it is one hour per gap. */
  lemma {:induction false} CreditedSumExtremes(ts: seq<int>)
    requires |ts| >= 1
    ensures (forall i :: 0 < i < |ts| ==> ts[i] - ts[i - 1] <= MaxGapSeconds) ==> CreditedSum(ts) == ts[|ts| - 1] - ts[0]
    ensures (forall i :: 0 < i < |ts| ==> ts[i] - ts[i - 1] > MaxGapSeconds) ==> CreditedSum(ts) == MaxGapCredit * (|ts| - 1)
  {
    if |ts| >= 2 {
      var init := ts[..|ts| - 1];
      CreditedSumExtremes(init);
      assert init[|init| - 1] == ts[|ts| - 2] && init[0] == ts[0];
      assert forall i :: 0 < i < |init| ==> init[i] - init[i - 1] == ts[i] - ts[i - 1];
    }
  }

  lemma SortedCommits(s: Session)
    requires IsComplete(s)
    ensures SortedInts(Times(SortByTime(AllCommits(s))))
    ensures |Times(SortByTime(AllCommits(s)))| == |s.intermediates| + 2
  {
    SortedTimes(SortByTime(AllCommits(s)));
    assert |multiset(SortByTime(AllCommits(s)))| == |multiset(AllCommits(s))|;
  }

  /** Duration rule bounds: an open session counts 0; a complete one counts
      at least 0, at most four hours per gap between its commits, and at most
      the wall-clock time between its earliest and its latest commit. */
  lemma DurationBounds(s: Session)
    ensures !IsComplete(s) ==> SessionDuration(s) == 0
    ensures 0 <= SessionDuration(s) <= MaxGapSeconds * (|s.intermediates| + 1)
    ensures IsComplete(s) ==> var ts := Times(SortByTime(AllCommits(s)));
      SessionDuration(s) <= ts[|ts| - 1] - ts[0]
  {
    if IsComplete(s) {
      SortedCommits(s);
      CreditedSumBounds(Times(SortByTime(AllCommits(s))));
    }
  }

  /** An orphan session, whose start and end are one commit, counts 0. */
  lemma OrphanDurationZero(s: Session)
    requires s.end == Some(s.start) && s.intermediates == []
    ensures SessionDuration(s) == 0
  {
    var c := s.start;
    assert AllCommits(s) == [c, c];
    assert [c, c][1..] == [c];
    assert SortByTime([c]) == [c] by { assert [c][1..] == []; }
    assert SortByTime([c, c]) == [c, c];
    assert Times([c, c]) == [c.timestamp, c.timestamp] by { assert Times([c]) == [c.timestamp]; }
    var ts := [c.timestamp, c.timestamp];
    assert ts[..1] == [c.timestamp];
    assert CreditedSum(ts) == CreditedSum(ts[..1]) + Credit(ts[1] - ts[0]);
    assert SessionDuration(s) == CreditedSum(ts);
  }

  /** Because the commits are sorted first, the duration does not depend on
      the order in which the intermediate commits were collected. */
  lemma DurationOrderIndependent(s: Session, intermediates: seq<Commit>)
    requires multiset(intermediates) == multiset(s.intermediates)
    ensures SessionDuration(s.(intermediates := intermediates)) == SessionDuration(s)
  {
    var s' := s.(intermediates := intermediates);
    if IsComplete(s) {
      assert multiset(AllCommits(s')) == multiset(AllCommits(s));
      TimesPermutation(AllCommits(s'), AllCommits(s));
      SortedTimesDetermined(AllCommits(s'), AllCommits(s));
    }
  }

  // -----------------------------------------------------------------------
  // Run total
  // -----------------------------------------------------------------------

  function CompleteSessions(ss: seq<Session>): (r: seq<Session>)
    ensures forall s :: s in r <==> s in ss && IsComplete(s)
  {
    if ss == [] then []
    else (if IsComplete(ss[0]) then [ss[0]] else []) + CompleteSessions(ss[1..])
  }

  function IncompleteSessions(ss: seq<Session>): (r: seq<Session>)
    ensures forall s :: s in r <==> s in ss && !IsComplete(s)
  {
    if ss == [] then []
    else (if IsComplete(ss[0]) then [] else [ss[0]]) + IncompleteSessions(ss[1..])
  }

  /** Every session is complete or in progress, and none is both. */
  lemma {:induction false} SessionsPartition(ss: seq<Session>)
    ensures |CompleteSessions(ss)| + |IncompleteSessions(ss)| == |ss|
  {
    if ss != [] { SessionsPartition(ss[1..]); }
  }

  /** The billable total: the sum of the durations of the complete sessions
      only. */
  function TotalSeconds(ss: seq<Session>): (r: int)
    ensures r >= 0
  {
    if ss == [] then 0
    else
      DurationBounds(ss[0]);
      (if IsComplete(ss[0]) then SessionDuration(ss[0]) else 0) + TotalSeconds(ss[1..])
  }

  function SumDurations(ss: seq<Session>): int
  {
    if ss == [] then 0 else SessionDuration(ss[0]) + SumDurations(ss[1..])
  }

  /** The total is the sum over the complete sessions, and equally the sum
      over all sessions, since an open session counts 0. */
  lemma {:induction false} TotalCountsCompleteOnly(ss: seq<Session>)
    ensures TotalSeconds(ss) == SumDurations(CompleteSessions(ss))
    ensures TotalSeconds(ss) == SumDurations(ss)
  {
    TotalOverComplete(ss);
    TotalOverAll(ss);
  }

  lemma {:induction false} TotalOverComplete(ss: seq<Session>)
    ensures TotalSeconds(ss) == SumDurations(CompleteSessions(ss))
  {
    if ss != [] {
      TotalOverComplete(ss[1..]);
      if IsComplete(ss[0]) {
        var rest := CompleteSessions(ss[1..]);
        assert CompleteSessions(ss) == [ss[0]] + rest;
        assert ([ss[0]] + rest)[1..] == rest;
      } else {
        assert CompleteSessions(ss) == CompleteSessions(ss[1..]);
      }
    }
  }

  lemma {:induction false} TotalOverAll(ss: seq<Session>)
    ensures TotalSeconds(ss) == SumDurations(ss)
  {
    if ss != [] {
      TotalOverAll(ss[1..]);
      DurationBounds(ss[0]);
    }
  }

  /** The total is at most four hours for every gap between commits of a
      complete session. */
  lemma {:induction false} TotalBound(ss: seq<Session>)
    ensures TotalSeconds(ss) <= MaxGapSeconds * GapCount(ss)
  {
    if ss != [] {
      TotalBound(ss[1..]);
      DurationBounds(ss[0]);
    }
  }

  /** The number of gaps between commits, over the complete sessions. */
  function GapCount(ss: seq<Session>): nat
  {
    if ss == [] then 0
    else (if IsComplete(ss[0]) then |ss[0].intermediates| + 1 else 0) + GapCount(ss[1..])
  }
}
