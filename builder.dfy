/** The session builder: one pass over the classified commits with a slot
    for at most one open session, a session counter and the list of emitted
    sessions. */
module Builder {
  import opened Text
  import opened Commits
  import opened Sessions
  import opened Duration

  /** The builder's state between two commits. */
  datatype State = State(sessions: seq<Session>, current: Option<Session>, counter: nat)

  const Initial: State := State([], None, 1)

  /** One commit's transition, branch for branch as the loop body does it. */
  function Step(st: State, c: Commit): State
  {
    if IsSessionStart(c) then
      // open a session, first emitting (superseding) the open one
      var emitted := if st.current.Some? && !IsComplete(st.current.value)
                     then st.sessions + [st.current.value] else st.sessions;
      State(emitted, Some(Session(st.counter, c, None, [])), st.counter + 1)
    else if IsSessionEnd(c) then
      if st.current.Some? && !IsComplete(st.current.value) then
        // close the open session
        State(st.sessions + [st.current.value.(end := Some(c))], None, st.counter)
      else
        // orphan end commit: a session that starts and ends with it
        State(st.sessions + [Session(st.counter, c, Some(c), [])], st.current, st.counter + 1)
    else if st.current.Some? then
      // intermediate commit joins the open session
      var cur := st.current.value;
      State(st.sessions, Some(cur.(intermediates := cur.intermediates + [c])), st.counter)
    else
      // intermediate commit while idle: dropped
      st
  }

  /** The state after the loop has consumed `cs`. */
  function Run(cs: seq<Commit>): State
    decreases |cs|
  {
    if cs == [] then Initial else Step(Run(cs[..|cs| - 1]), cs[|cs| - 1])
  }

  /** End of stream: an open session is emitted as it is. */
  function Flush(st: State): seq<Session>
  {
    if st.current.Some? then st.sessions + [st.current.value] else st.sessions
  }

  /** `build_sessions` as a function of its input. */
  function Build(cs: seq<Commit>): seq<Session>
  {
    Flush(Run(cs))
  }

  // -----------------------------------------------------------------------
  // Reference definitions, stated on the commit list alone
  // -----------------------------------------------------------------------

  /** There is a start commit in `cs` and no end commit after the last one. */
  predicate OpenAfter(cs: seq<Commit>)
    decreases |cs|
  {
    if cs == [] then false
    else if IsSessionStart(cs[|cs| - 1]) then true
    else if IsSessionEnd(cs[|cs| - 1]) then false
    else OpenAfter(cs[..|cs| - 1])
  }

  function CountStarts(cs: seq<Commit>): nat
    decreases |cs|
  {
    if cs == [] then 0
    else CountStarts(cs[..|cs| - 1]) + (if IsSessionStart(cs[|cs| - 1]) then 1 else 0)
  }

  function CountEnds(cs: seq<Commit>): nat
    decreases |cs|
  {
    if cs == [] then 0
    else CountEnds(cs[..|cs| - 1]) + (if !IsSessionStart(cs[|cs| - 1]) && IsSessionEnd(cs[|cs| - 1]) then 1 else 0)
  }

  /** End commits that arrive with no session open. */
  function CountOrphans(cs: seq<Commit>): nat
    decreases |cs|
  {
    if cs == [] then 0
    else
      var last := cs[|cs| - 1];
      CountOrphans(cs[..|cs| - 1]) + (if !IsSessionStart(last) && IsSessionEnd(last) && !OpenAfter(cs[..|cs| - 1]) then 1 else 0)
  }

  /** The commits of `cs` without the intermediate commits that arrive with
      no session open. */
  function Kept(cs: seq<Commit>): seq<Commit>
    decreases |cs|
  {
    if cs == [] then []
    else
      var last := cs[|cs| - 1];
      Kept(cs[..|cs| - 1]) + (if IsIntermediate(last) && !OpenAfter(cs[..|cs| - 1]) then [] else [last])
  }

  // -----------------------------------------------------------------------
  // The shapes a session can have
  // -----------------------------------------------------------------------

  predicate AllIntermediate(cs: seq<Commit>)
  {
    forall k :: 0 <= k < |cs| ==> IsIntermediate(cs[k])
  }

  /** Opened by a start commit and not closed. */
  predicate OpenShape(s: Session)
  {
    IsSessionStart(s.start) && s.end.None? && AllIntermediate(s.intermediates)
  }

  /** Opened by a start commit and closed by an end commit. */
  predicate ClosedShape(s: Session)
  {
    IsSessionStart(s.start) && s.end.Some? && IsSessionEnd(s.end.value) && AllIntermediate(s.intermediates)
  }

  /** Made of one end commit that found no open session. */
  predicate OrphanShape(s: Session)
  {
    !IsSessionStart(s.start) && IsSessionEnd(s.start) && s.end == Some(s.start) && s.intermediates == []
  }

  predicate WellFormed(s: Session)
  {
    OpenShape(s) || ClosedShape(s) || OrphanShape(s)
  }

  /** The distinct commits of a session in arrival order. */
  function Members(s: Session): seq<Commit>
  {
    if IsSessionEnd(s.start) && !IsSessionStart(s.start) then [s.start]
    else [s.start] + s.intermediates + (if s.end.Some? then [s.end.value] else [])
  }

  function Flatten(ss: seq<Session>): seq<Commit>
    decreases |ss|
  {
    if ss == [] then [] else Flatten(ss[..|ss| - 1]) + Members(ss[|ss| - 1])
  }

  function OpenMembers(st: State): seq<Commit>
  {
    if st.current.Some? then Members(st.current.value) else []
  }

  // -----------------------------------------------------------------------
  // The loop invariant
  // -----------------------------------------------------------------------

  /** Ids are 1, 2, ... in emission order, the counter is the next id, and
      the open session, if any, holds the id after the emitted ones. */
  ghost predicate IdsInv(st: State)
  {
    (forall k :: 0 <= k < |st.sessions| ==> st.sessions[k].id == k + 1)
    && st.counter == |st.sessions| + (if st.current.Some? then 2 else 1)
    && (st.current.Some? ==> st.current.value.id == |st.sessions| + 1)
  }

  /** Every emitted session is well formed and the slot holds an open one. */
  ghost predicate ShapeInv(st: State)
  {
    (forall k :: 0 <= k < |st.sessions| ==> WellFormed(st.sessions[k]))
    && (st.current.Some? ==> OpenShape(st.current.value))
  }

  /** What the state says about the commits consumed so far. */
  ghost predicate TraceInv(st: State, cs: seq<Commit>)
  {
    (st.current.Some? <==> OpenAfter(cs))
    && Flatten(st.sessions) + OpenMembers(st) == Kept(cs)
    && |st.sessions| + (if st.current.Some? then 1 else 0) == CountStarts(cs) + CountOrphans(cs)
    && |CompleteSessions(st.sessions)| == CountEnds(cs)
  }

  ghost predicate Inv(st: State, cs: seq<Commit>)
  {
    IdsInv(st) && ShapeInv(st) && TraceInv(st, cs)
  }

  lemma StartNotEnd(c: Commit)
    ensures IsSessionStart(c) ==> !IsSessionEnd(c)
  {
  }

  lemma FlattenSnoc(ss: seq<Session>, s: Session)
    ensures Flatten(ss + [s]) == Flatten(ss) + Members(s)
  {
    assert (ss + [s])[..|ss|] == ss;
  }

  lemma {:induction false} CompleteSnoc(ss: seq<Session>, s: Session)
    ensures CompleteSessions(ss + [s]) == CompleteSessions(ss) + (if IsComplete(s) then [s] else [])
  {
    if ss != [] {
      assert (ss + [s])[1..] == ss[1..] + [s];
      CompleteSnoc(ss[1..], s);
    } else {
      assert [] + [s] == [s];
    }
  }

  lemma RunSnoc(cs: seq<Commit>, c: Commit)
    ensures Run(cs + [c]) == Step(Run(cs), c)
  {
    assert (cs + [c])[..|cs|] == cs;
  }

  /** The reference definitions, one commit further. */
  lemma CountsSnoc(cs: seq<Commit>, c: Commit)
    ensures OpenAfter(cs + [c]) == (IsSessionStart(c) || (!IsSessionEnd(c) && OpenAfter(cs)))
    ensures Kept(cs + [c]) == Kept(cs) + (if IsIntermediate(c) && !OpenAfter(cs) then [] else [c])
    ensures CountStarts(cs + [c]) == CountStarts(cs) + (if IsSessionStart(c) then 1 else 0)
    ensures CountEnds(cs + [c]) == CountEnds(cs) + (if !IsSessionStart(c) && IsSessionEnd(c) then 1 else 0)
    ensures CountOrphans(cs + [c]) == CountOrphans(cs) + (if !IsSessionStart(c) && IsSessionEnd(c) && !OpenAfter(cs) then 1 else 0)
  {
    assert (cs + [c])[..|cs|] == cs;
  }

  lemma StepIds(st: State, c: Commit)
    requires IdsInv(st) && ShapeInv(st)
    ensures IdsInv(Step(st, c))
  {
    var st' := Step(st, c);
    forall k | 0 <= k < |st'.sessions| ensures st'.sessions[k].id == k + 1 {
      if k < |st.sessions| { assert st'.sessions[k] == st.sessions[k]; }
    }
  }

  lemma StepShape(st: State, c: Commit)
    requires ShapeInv(st)
    ensures ShapeInv(Step(st, c))
  {
    StartNotEnd(c);
    var st' := Step(st, c);
    if IsSessionEnd(c) && st.current.Some? && !IsSessionStart(c) {
      assert ClosedShape(st.current.value.(end := Some(c)));
    }
    if !IsSessionStart(c) && !IsSessionEnd(c) && st.current.Some? {
      var cur := st.current.value;
      assert OpenShape(cur.(intermediates := cur.intermediates + [c])) by {
        assert AllIntermediate(cur.intermediates + [c]) by {
          forall k | 0 <= k < |cur.intermediates| + 1 ensures IsIntermediate((cur.intermediates + [c])[k]) {
            if k < |cur.intermediates| { assert (cur.intermediates + [c])[k] == cur.intermediates[k]; }
          }
        }
      }
    }
    forall k | 0 <= k < |st'.sessions| ensures WellFormed(st'.sessions[k]) {
      if k < |st.sessions| { assert st'.sessions[k] == st.sessions[k]; }
    }
  }

  lemma MembersClose(cur: Session, c: Commit)
    requires IsSessionStart(cur.start) && cur.end.None?
    ensures Members(cur.(end := Some(c))) == Members(cur) + [c]
  {
    StartNotEnd(cur.start);
    assert Members(cur) == [cur.start] + cur.intermediates + [];
    assert Members(cur.(end := Some(c))) == [cur.start] + cur.intermediates + [c];
  }

  lemma MembersAppend(cur: Session, c: Commit)
    requires IsSessionStart(cur.start) && cur.end.None?
    ensures Members(cur.(intermediates := cur.intermediates + [c])) == Members(cur) + [c]
  {
    StartNotEnd(cur.start);
    assert Members(cur) == [cur.start] + cur.intermediates + [];
    assert Members(cur.(intermediates := cur.intermediates + [c])) == [cur.start] + (cur.intermediates + [c]) + [];
  }

  lemma TraceStart(st: State, cs: seq<Commit>, c: Commit)
    requires IsSessionStart(c) && (st.current.Some? ==> OpenShape(st.current.value)) && TraceInv(st, cs)
    ensures TraceInv(Step(st, c), cs + [c])
  {
    CountsSnoc(cs, c);
    var opening := Session(st.counter, c, None, []);
    assert Members(opening) == [c] by { StartNotEnd(c); }
    if st.current.Some? {
      var cur := st.current.value;
      var st' := State(st.sessions + [cur], Some(opening), st.counter + 1);
      assert Step(st, c) == st';
      FlattenSnoc(st.sessions, cur);
      assert Flatten(st'.sessions) + OpenMembers(st') == (Flatten(st.sessions) + Members(cur)) + [c];
      CompleteSnoc(st.sessions, cur);
    } else {
      var st' := State(st.sessions, Some(opening), st.counter + 1);
      assert Step(st, c) == st';
      assert OpenMembers(st) == [];
      assert Flatten(st'.sessions) + OpenMembers(st') == Flatten(st.sessions) + [c];
    }
  }

  lemma TraceClose(st: State, cs: seq<Commit>, c: Commit)
    requires !IsSessionStart(c) && IsSessionEnd(c) && st.current.Some?
    requires OpenShape(st.current.value) && TraceInv(st, cs)
    ensures TraceInv(Step(st, c), cs + [c])
  {
    CountsSnoc(cs, c);
    var cur := st.current.value;
    var closed := cur.(end := Some(c));
    var st' := State(st.sessions + [closed], None, st.counter);
    assert Step(st, c) == st';
    FlattenSnoc(st.sessions, closed);
    MembersClose(cur, c);
    calc {
      Flatten(st'.sessions) + OpenMembers(st');
      Flatten(st.sessions) + (Members(cur) + [c]);
      (Flatten(st.sessions) + Members(cur)) + [c];
      Kept(cs + [c]);
    }
    CompleteSnoc(st.sessions, closed);
  }

  lemma TraceOrphan(st: State, cs: seq<Commit>, c: Commit)
    requires !IsSessionStart(c) && IsSessionEnd(c) && st.current.None?
    requires TraceInv(st, cs)
    ensures TraceInv(Step(st, c), cs + [c])
  {
    var orphan := Session(st.counter, c, Some(c), []);
    assert Step(st, c) == State(st.sessions + [orphan], None, st.counter + 1);
    OrphanKept(st, cs, c);
    OrphanCounts(st, cs, c);
  }

  lemma OrphanKept(st: State, cs: seq<Commit>, c: Commit)
    requires !IsSessionStart(c) && IsSessionEnd(c) && st.current.None?
    requires Flatten(st.sessions) == Kept(cs) && !OpenAfter(cs)
    ensures Flatten(st.sessions + [Session(st.counter, c, Some(c), [])]) == Kept(cs + [c])
    ensures !OpenAfter(cs + [c])
  {
    CountsSnoc(cs, c);
    var orphan := Session(st.counter, c, Some(c), []);
    assert Members(orphan) == [c];
    FlattenSnoc(st.sessions, orphan);
  }

  lemma OrphanCounts(st: State, cs: seq<Commit>, c: Commit)
    requires !IsSessionStart(c) && IsSessionEnd(c) && st.current.None? && !OpenAfter(cs)
    requires |st.sessions| == CountStarts(cs) + CountOrphans(cs)
    requires |CompleteSessions(st.sessions)| == CountEnds(cs)
    ensures |st.sessions| + 1 == CountStarts(cs + [c]) + CountOrphans(cs + [c])
    ensures |CompleteSessions(st.sessions + [Session(st.counter, c, Some(c), [])])| == CountEnds(cs + [c])
  {
    CountsSnoc(cs, c);
    CompleteSnoc(st.sessions, Session(st.counter, c, Some(c), []));
  }

  lemma TraceIntermediate(st: State, cs: seq<Commit>, c: Commit)
    requires IsIntermediate(c)
    requires ShapeInv(st) && TraceInv(st, cs)
    ensures TraceInv(Step(st, c), cs + [c])
  {
    CountsSnoc(cs, c);
    if st.current.Some? {
      var cur := st.current.value;
      MembersAppend(cur, c);
    }
  }

  lemma StepTrace(st: State, cs: seq<Commit>, c: Commit)
    requires ShapeInv(st) && TraceInv(st, cs)
    ensures TraceInv(Step(st, c), cs + [c])
  {
    if IsSessionStart(c) {
      if st.current.Some? { assert OpenShape(st.current.value); }
      TraceStart(st, cs, c);
    } else if IsSessionEnd(c) {
      if st.current.Some? { assert OpenShape(st.current.value); TraceClose(st, cs, c); } else { TraceOrphan(st, cs, c); }
    } else {
      TraceIntermediate(st, cs, c);
    }
  }

  /** The invariant holds after every prefix of the input. */
  lemma {:induction false} RunInv(cs: seq<Commit>)
    ensures Inv(Run(cs), cs)
    decreases |cs|
  {
    if cs != [] {
      var init, c := cs[..|cs| - 1], cs[|cs| - 1];
      assert cs == init + [c];
      RunInv(init);
      StepIds(Run(init), c);
      StepShape(Run(init), c);
      StepTrace(Run(init), init, c);
      RunSnoc(init, c);
    }
  }

  // -----------------------------------------------------------------------
  // The loop
  // -----------------------------------------------------------------------

  /** `build_sessions`: one pass over the commits, updating the open slot,
      the counter and the list of emitted sessions. */
  method BuildSessions(commits: seq<Commit>) returns (sessions: seq<Session>)
    ensures sessions == Build(commits)
    ensures forall k :: 0 <= k < |sessions| ==> sessions[k].id == k + 1 && WellFormed(sessions[k])
    ensures Flatten(sessions) == Kept(commits)
  {
    sessions := [];
    var current: Option<Session> := None;
    var counter: nat := 1;
    for i := 0 to |commits|
      invariant State(sessions, current, counter) == Run(commits[..i])
    {
      var commit := commits[i];
      assert commits[..i + 1] == commits[..i] + [commit];
      RunSnoc(commits[..i], commit);
      if IsSessionStart(commit) {
        if current.Some? && !IsComplete(current.value) {
          sessions := sessions + [current.value];
        }
        current := Some(Session(counter, commit, None, []));
        counter := counter + 1;
      } else if IsSessionEnd(commit) {
        if current.Some? && !IsComplete(current.value) {
          current := Some(current.value.(end := Some(commit)));
          sessions := sessions + [current.value];
          current := None;
        } else {
          sessions := sessions + [Session(counter, commit, Some(commit), [])];
          counter := counter + 1;
        }
      } else if current.Some? {
        current := Some(current.value.(intermediates := current.value.intermediates + [commit]));
      }
    }
    assert commits[..|commits|] == commits;
    if current.Some? {
      sessions := sessions + [current.value];
    }
    BuildIds(commits);
    BuildWellFormed(commits);
    BuildPartition(commits);
  }

  /** Running the builder twice on the same commits gives the same sessions. */
  method BuildSessionsTwice(commits: seq<Commit>) returns (first: seq<Session>, second: seq<Session>)
    ensures first == second
  {
    first := BuildSessions(commits);
    second := BuildSessions(commits);
  }

  // -----------------------------------------------------------------------
  // What the builder promises
  // -----------------------------------------------------------------------

  /** Open slot invariant: the slot is empty or holds an incomplete session
      opened by a start commit, numbered right after the emitted ones. */
  lemma SlotInvariant(cs: seq<Commit>)
    ensures Run(cs).current.Some? ==> !IsComplete(Run(cs).current.value) && IsSessionStart(Run(cs).current.value.start)
    ensures Run(cs).current.Some? ==> Run(cs).current.value.id == |Run(cs).sessions| + 1
    ensures Run(cs).current.Some? <==> OpenAfter(cs)
  {
    RunInv(cs);
  }

  /** The emitted sessions are numbered 1, 2, ..., n in emission order. */
  lemma BuildIds(cs: seq<Commit>)
    ensures forall k :: 0 <= k < |Build(cs)| ==> Build(cs)[k].id == k + 1
  {
    RunInv(cs);
    var st := Run(cs);
    forall k | 0 <= k < |Build(cs)| ensures Build(cs)[k].id == k + 1 {
      if k < |st.sessions| { assert Build(cs)[k] == st.sessions[k]; }
    }
  }

  /** Every emitted session is an open session cut off by a later start
      commit or by the end of input, a session closed by an end commit, or
      an orphan end commit on its own. */
  lemma BuildWellFormed(cs: seq<Commit>)
    ensures forall k :: 0 <= k < |Build(cs)| ==> WellFormed(Build(cs)[k])
  {
    RunInv(cs);
    var st := Run(cs);
    forall k | 0 <= k < |Build(cs)| ensures WellFormed(Build(cs)[k]) {
      if k < |st.sessions| { assert Build(cs)[k] == st.sessions[k]; }
    }
  }

  /** The sessions' commits, taken in order, are the input without the
      intermediate commits that arrived while no session was open: no commit
      is lost otherwise, none is reordered and none lands in two sessions. */
  lemma BuildPartition(cs: seq<Commit>)
    ensures Flatten(Build(cs)) == Kept(cs)
  {
    RunInv(cs);
    var st := Run(cs);
    if st.current.Some? { FlattenSnoc(st.sessions, st.current.value); }
  }

  /** The number of sessions is the number of start commits plus the number
      of orphan end commits. */
  lemma BuildCount(cs: seq<Commit>)
    ensures |Build(cs)| == CountStarts(cs) + CountOrphans(cs)
  {
    RunInv(cs);
  }

  /** Every end commit yields exactly one complete session, and the complete
      and incomplete sessions together are all of them. */
  lemma BuildCompleteCount(cs: seq<Commit>)
    ensures |CompleteSessions(Build(cs))| == CountEnds(cs)
    ensures |CompleteSessions(Build(cs))| + |IncompleteSessions(Build(cs))| == |Build(cs)|
  {
    RunInv(cs);
    var st := Run(cs);
    if st.current.Some? { CompleteSnoc(st.sessions, st.current.value); }
    SessionsPartition(Build(cs));
  }

  /** Supersession: a start commit arriving while a session is open emits
      that session unchanged and without an end commit, then opens a new
      session whose start is the new commit and whose id is the next one. */
  lemma Supersede(cs: seq<Commit>, c: Commit)
    requires IsSessionStart(c) && Run(cs).current.Some?
    ensures Run(cs).current.value.end.None?
    ensures Run(cs + [c]).sessions == Run(cs).sessions + [Run(cs).current.value]
    ensures Run(cs + [c]).current == Some(Session(Run(cs).counter, c, None, []))
    ensures Run(cs + [c]).counter == Run(cs).counter + 1
  {
    RunInv(cs);
    RunSnoc(cs, c);
  }

  /** A start commit arriving while idle opens a session and emits nothing. */
  lemma OpenWhileIdle(cs: seq<Commit>, c: Commit)
    requires IsSessionStart(c) && Run(cs).current.None?
    ensures Run(cs + [c]) == State(Run(cs).sessions, Some(Session(Run(cs).counter, c, None, [])), Run(cs).counter + 1)
  {
    RunSnoc(cs, c);
  }

  /** An end commit arriving while a session is open closes it: the session,
      with the end commit set, is emitted and the slot is emptied. */
  lemma CloseOpen(cs: seq<Commit>, c: Commit)
    requires IsSessionEnd(c) && Run(cs).current.Some?
    ensures Run(cs + [c]) == State(Run(cs).sessions + [Run(cs).current.value.(end := Some(c))], None, Run(cs).counter)
  {
    RunInv(cs);
    RunSnoc(cs, c);
    StartNotEnd(c);
  }

  /** An end commit arriving while idle emits one session whose start and end
      are that commit, with no intermediate commits; the slot stays empty. */
  lemma OrphanEnd(cs: seq<Commit>, c: Commit)
    requires IsSessionEnd(c) && Run(cs).current.None?
    ensures Run(cs + [c]) == State(Run(cs).sessions + [Session(Run(cs).counter, c, Some(c), [])], None, Run(cs).counter + 1)
    ensures SessionDuration(Session(Run(cs).counter, c, Some(c), [])) == 0
  {
    RunSnoc(cs, c);
    StartNotEnd(c);
    OrphanDurationZero(Session(Run(cs).counter, c, Some(c), []));
  }

  /** An intermediate commit joins the open session and is appended to its
      intermediate commits. */
  lemma AppendIntermediate(cs: seq<Commit>, c: Commit)
    requires IsIntermediate(c) && Run(cs).current.Some?
    ensures var cur := Run(cs).current.value;
      Run(cs + [c]) == State(Run(cs).sessions, Some(cur.(intermediates := cur.intermediates + [c])), Run(cs).counter)
  {
    RunSnoc(cs, c);
  }

  /** An intermediate commit arriving while idle belongs to no session: the
      state does not change. */
  lemma DropWhileIdle(cs: seq<Commit>, c: Commit)
    requires IsIntermediate(c) && Run(cs).current.None?
    ensures Run(cs + [c]) == Run(cs)
    ensures Build(cs + [c]) == Build(cs)
  {
    RunSnoc(cs, c);
  }

  /** At end of input an open session is emitted last, still incomplete. */
  lemma FlushOpen(cs: seq<Commit>)
    requires Run(cs).current.Some?
    ensures Build(cs) == Run(cs).sessions + [Run(cs).current.value]
    ensures !IsComplete(Build(cs)[|Build(cs)| - 1])
  {
    RunInv(cs);
  }
}
