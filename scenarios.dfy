/** Worked cases of the builder and the duration rule on concrete commits. */
module Scenarios {
  import opened Text
  import opened Commits
  import opened Sessions
  import opened Duration
  import opened Builder

  function At(tag: string, t: int): Commit
  {
    Commit("abcdef01", t, tag + " step", tag)
  }

  lemma SortPair(a: Commit, b: Commit)
    requires a.timestamp <= b.timestamp
    ensures SortByTime([a, b]) == [a, b]
  {
    assert [a, b][1..] == [b];
    assert [b][1..] == [];
    assert SortByTime([b]) == [b];
  }

  lemma SortTriple(a: Commit, b: Commit, c: Commit)
    requires a.timestamp <= b.timestamp <= c.timestamp
    ensures SortByTime([a, b, c]) == [a, b, c]
  {
    assert [a, b, c][1..] == [b, c];
    SortPair(b, c);
  }

  /** Two commits `gap` seconds apart credit `Credit(gap)`. */
  lemma TwoCommitDuration(s: Session)
    requires s.end.Some? && s.intermediates == [] && s.start.timestamp <= s.end.value.timestamp
    ensures SessionDuration(s) == Credit(s.end.value.timestamp - s.start.timestamp)
  {
    var a, b := s.start, s.end.value;
    assert AllCommits(s) == [a, b];
    SortPair(a, b);
    assert Times([a, b]) == [a.timestamp, b.timestamp] by { assert [a, b][1..] == [b]; }
    var ts := [a.timestamp, b.timestamp];
    assert ts[..1] == [a.timestamp];
    assert CreditedSum(ts) == CreditedSum(ts[..1]) + Credit(ts[1] - ts[0]);
    assert SessionDuration(s) == CreditedSum(ts);
  }

  lemma Run2(a: Commit, b: Commit)
    ensures Run([a, b]) == Step(Step(Initial, a), b)
  {
    assert [a, b][..1] == [a];
    assert [a][..0] == [];
    assert Run([a]) == Step(Run([]), a);
  }

  lemma Run3(a: Commit, b: Commit, c: Commit)
    ensures Run([a, b, c]) == Step(Step(Step(Initial, a), b), c)
  {
    assert [a, b, c][..2] == [a, b];
    Run2(a, b);
  }

  lemma BuildThree(a: Commit, b: Commit, c: Commit)
    requires IsSessionStart(a) && IsIntermediate(b) && IsSessionEnd(c) && !IsSessionStart(c)
    ensures Build([a, b, c]) == [Session(1, a, Some(c), [b])]
  {
    Run3(a, b, c);
    var st1 := State([], Some(Session(1, a, None, [])), 2);
    assert Step(Initial, a) == st1;
    var st2 := State([], Some(Session(1, a, None, [b])), 2);
    assert [] + [b] == [b];
    assert Step(st1, b) == st2;
  }

  lemma CreditedSumThree(x: int, y: int, z: int)
    ensures CreditedSum([x, y, z]) == Credit(y - x) + Credit(z - y)
  {
    assert [x, y, z][..2] == [x, y] && [x, y][..1] == [x];
    assert CreditedSum([x]) == 0;
    assert CreditedSum([x, y]) == Credit(y - x);
    assert CreditedSum([x, y, z]) == CreditedSum([x, y]) + Credit(z - y);
  }

  lemma TimesThree(a: Commit, b: Commit, c: Commit)
    ensures Times([a, b, c]) == [a.timestamp, b.timestamp, c.timestamp]
  {
    assert [a, b, c][1..] == [b, c];
    assert [b, c][1..] == [c];
    assert [c][1..] == [];
    assert Times([c]) == [c.timestamp];
    assert Times([b, c]) == [b.timestamp, c.timestamp];
  }

  lemma ThreeCommitDuration(s: Session)
    requires s.end.Some? && |s.intermediates| == 1
    requires s.start.timestamp <= s.intermediates[0].timestamp <= s.end.value.timestamp
    ensures SessionDuration(s) == Credit(s.intermediates[0].timestamp - s.start.timestamp)
      + Credit(s.end.value.timestamp - s.intermediates[0].timestamp)
  {
    var a, b, c := s.start, s.intermediates[0], s.end.value;
    assert AllCommits(s) == [a, b, c];
    SortTriple(a, b, c);
    TimesThree(a, b, c);
    CreditedSumThree(a.timestamp, b.timestamp, c.timestamp);
  }

  /** An experiment that starts, records an observation an hour later and
      succeeds an hour after that: one complete session of two hours, with
      outcome `SUCCEED`. */
  lemma SimpleClosedSession()
    ensures var ss := Build([At("exp:", 0), At("obs:", 3600), At("succeed:", 7200)]);
      |ss| == 1 && ss[0].id == 1 && IsComplete(ss[0])
      && ss[0].intermediates == [At("obs:", 3600)]
      && SessionDuration(ss[0]) == 7200 && Outcome(ss[0]) == "SUCCEED"
  {
    var a, b, c := At("exp:", 0), At("obs:", 3600), At("succeed:", 7200);
    BuildThree(a, b, c);
    ThreeCommitDuration(Session(1, a, Some(c), [b]));
    EndTagOutcomes();
  }

  /** An eleven-hour gap inside a session is credited one hour; a gap of
      exactly four hours is credited in full. */
  lemma GapProtection()
    ensures SessionDuration(Session(1, At("exp:", 0), Some(At("succeed:", 39600)), [])) == 3600
    ensures SessionDuration(Session(1, At("exp:", 0), Some(At("succeed:", 14400)), [])) == 14400
    ensures SessionDuration(Session(1, At("exp:", 0), Some(At("succeed:", 14401)), [])) == 3600
  {
    TwoCommitDuration(Session(1, At("exp:", 0), Some(At("succeed:", 39600)), []));
    TwoCommitDuration(Session(1, At("exp:", 0), Some(At("succeed:", 14400)), []));
    TwoCommitDuration(Session(1, At("exp:", 0), Some(At("succeed:", 14401)), []));
  }

  lemma BuildSupersession(a: Commit, b: Commit, c: Commit)
    requires IsSessionStart(a) && IsSessionStart(b) && IsSessionEnd(c) && !IsSessionStart(c)
    ensures Build([a, b, c]) == [Session(1, a, None, []), Session(2, b, Some(c), [])]
  {
    Run3(a, b, c);
    var first := Session(1, a, None, []);
    var st1 := State([], Some(first), 2);
    assert Step(Initial, a) == st1;
    var st2 := State([first], Some(Session(2, b, None, [])), 3);
    assert Step(st1, b) == st2;
    assert Step(st2, c) == State([first, Session(2, b, Some(c), [])], None, 3);
  }

  lemma TotalOfTwo(first: Session, second: Session)
    requires !IsComplete(first) && IsComplete(second)
    ensures TotalSeconds([first, second]) == SessionDuration(second)
  {
    assert [first, second][1..] == [second];
    assert [second][1..] == [];
    assert TotalSeconds([second]) == SessionDuration(second) + TotalSeconds([]);
  }

  /** A second `exp:` before any end commit emits the first session open,
      and the end commit closes the second one; only the second counts. */
  lemma Supersession()
    ensures var ss := Build([At("exp:", 0), At("exp:", 600), At("fail:", 1200)]);
      |ss| == 2 && ss[0] == Session(1, At("exp:", 0), None, [])
      && ss[1] == Session(2, At("exp:", 600), Some(At("fail:", 1200)), [])
      && TotalSeconds(ss) == 600
  {
    var a, b, c := At("exp:", 0), At("exp:", 600), At("fail:", 1200);
    BuildSupersession(a, b, c);
    var second := Session(2, b, Some(c), []);
    TwoCommitDuration(second);
    TotalOfTwo(Session(1, a, None, []), second);
  }

  /** An end commit with no session open becomes a session of its own that
      starts and ends with it and counts nothing; an intermediate commit with
      no session open is dropped. */
  lemma OrphanAndDropped()
    ensures var ss := Build([At("obs:", 0), At("stop:", 60)]);
      ss == [Session(1, At("stop:", 60), Some(At("stop:", 60)), [])]
      && IsComplete(ss[0]) && TotalSeconds(ss) == 0
  {
    var a, b := At("obs:", 0), At("stop:", 60);
    Run2(a, b);
    assert Step(Initial, a) == Initial;
    var orphan := Session(1, b, Some(b), []);
    assert Step(Initial, b) == State([orphan], None, 2);
    var ss := Build([a, b]);
    OrphanDurationZero(ss[0]);
    assert ss[1..] == [];
  }

  /** A session still open at the end of the history is reported as
      `IN_PROGRESS` and counts nothing. */
  lemma TrailingOpenSession()
    ensures var ss := Build([At("exp:", 0), At("test:", 5000)]);
      |ss| == 1 && !IsComplete(ss[0]) && Outcome(ss[0]) == InProgress && TotalSeconds(ss) == 0
  {
    var a, b := At("exp:", 0), At("test:", 5000);
    Run2(a, b);
    var st1 := State([], Some(Session(1, a, None, [])), 2);
    assert Step(Initial, a) == st1;
    assert IsIntermediate(b) && [] + [b] == [b];
    assert Step(st1, b) == State([], Some(Session(1, a, None, [b])), 2);
    var ss := Build([a, b]);
    assert ss[1..] == [];
  }
}
