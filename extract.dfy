/** Reading the classified commits out of the text that the log query
    prints, one `hash|author-date|subject` line per commit. */
module Extract {
  import opened Text
  import opened Commits

  /** The commits read from the log, or the author date that the timestamp
      parser refused (the parser's error is not caught, so reading stops). */
  datatype Extracted = Read(commits: seq<Commit>) | BadTimestamp(date: string)

  /** What one line contributes. */
  datatype LineResult = Skip | Keep(commit: Commit) | Fail(date: string)

  const HashLength: nat := 8

  /** `hash[:8]`. */
  function ShortHash(hash: string): (r: string)
    ensures |r| <= HashLength
    ensures |hash| <= HashLength ==> r == hash
    ensures |hash| > HashLength ==> |r| == HashLength && r == hash[..HashLength]
  {
    if |hash| <= HashLength then hash else hash[..HashLength]
  }

  /** `date.replace('Z', '+00:00')`. */
  function ReplaceZ(date: string): (r: string)
    ensures 'Z' !in r
    ensures 'Z' !in date ==> r == date
  {
    if date == [] then []
    else (if date[0] == 'Z' then "+00:00" else [date[0]]) + ReplaceZ(date[1..])
  }

  /** On one character: `Z` becomes `+00:00`, any other stays. */
  lemma ReplaceZChar(c: char)
    ensures ReplaceZ([c]) == if c == 'Z' then "+00:00" else [c]
  {
    assert [c][1..] == [];
  }

  /** The replacement works character by character, so with ReplaceZChar it
      is fixed on every string. */
  lemma {:induction false} ReplaceZConcat(a: string, b: string)
    ensures ReplaceZ(a + b) == ReplaceZ(a) + ReplaceZ(b)
    decreases |a|
  {
    if a == [] {
      assert a + b == b;
    } else {
      var c, rest := a[0], a[1..];
      assert a == [c] + rest;
      assert a + b == [c] + (rest + b);
      ReplaceZConcat(rest, b);
      calc {
        ReplaceZ(a + b);
        { ReplaceZCons(c, rest + b); }
        ReplaceZ([c]) + ReplaceZ(rest + b);
        ReplaceZ([c]) + (ReplaceZ(rest) + ReplaceZ(b));
        { ConcatAssoc(ReplaceZ([c]), ReplaceZ(rest), ReplaceZ(b)); }
        (ReplaceZ([c]) + ReplaceZ(rest)) + ReplaceZ(b);
        { ReplaceZCons(c, rest); }
        ReplaceZ(a) + ReplaceZ(b);
      }
    }
  }

  lemma ConcatAssoc(x: string, y: string, z: string)
    ensures x + (y + z) == (x + y) + z
  {
  }

  lemma ReplaceZCons(c: char, rest: string)
    ensures ReplaceZ([c] + rest) == ReplaceZ([c]) + ReplaceZ(rest)
  {
    assert ([c] + rest)[0] == c && ([c] + rest)[1..] == rest;
    ReplaceZChar(c);
  }

  /** One log line: skipped when empty, when it has fewer than two `|`, or
      when its subject carries no tag; otherwise a commit, whose timestamp is
      what `parse` makes of the author date, or a failure when `parse` refuses
      it. `parse` stands for the ISO-8601 parser and yields whole seconds. */
  function ParseLine(line: string, parse: string -> Option<int>): LineResult
  {
    if line == [] then Skip
    else match SplitFields(line)
      case None => Skip
      case Some(f) =>
        match TagOf(f.rest)
        case None => Skip
        case Some(tag) =>
          match parse(ReplaceZ(f.second))
          case None => Fail(f.second)
          case Some(t) => Keep(Commit(ShortHash(f.first), t, f.rest, tag))
  }

  /** The lines in order; the first failure ends the reading. */
  function Collect(lines: seq<string>, parse: string -> Option<int>): Extracted
    decreases |lines|
  {
    if lines == [] then Read([])
    else match ParseLine(lines[0], parse)
      case Skip => Collect(lines[1..], parse)
      case Fail(d) => BadTimestamp(d)
      case Keep(c) => Prepend(c, Collect(lines[1..], parse))
  }

  function Prepend(c: Commit, e: Extracted): Extracted
  {
    match e
    case Read(cs) => Read([c] + cs)
    case BadTimestamp(d) => e
  }

  /** The lines of the stripped output. */
  function Lines(stdout: string): seq<string>
  {
    Split(Strip(stdout), '\n')
  }

  /** `get_sred_commits` on the query's output: the commits, oldest first. */
  function SredCommits(stdout: string, parse: string -> Option<int>): Extracted
  {
    match Collect(Lines(stdout), parse)
    case Read(cs) => Read(SortByTime(cs))
    case BadTimestamp(d) => BadTimestamp(d)
  }

  function Concat(cs: seq<Commit>, e: Extracted): Extracted
  {
    match e
    case Read(rest) => Read(cs + rest)
    case BadTimestamp(d) => e
  }

  /** `get_sred_commits` after the query: splits the stripped output into
      lines, reads them, and sorts what was read. */
  method GetSredCommits(stdout: string, parse: string -> Option<int>) returns (r: Extracted)
    ensures r == SredCommits(stdout, parse)
  {
    var lines := Split(Strip(stdout), '\n');
    r := CollectLines(lines, parse);
    if r.Read? {
      r := Read(SortByTime(r.commits));
    }
  }

  /** The loop of `get_sred_commits`: one line at a time, with the tag loop
      for the subject; stops at the first date the parser refuses. */
  method CollectLines(lines: seq<string>, parse: string -> Option<int>) returns (r: Extracted)
    ensures r == Collect(lines, parse)
  {
    var commits: seq<Commit> := [];
    for i := 0 to |lines|
      invariant Collect(lines, parse) == Concat(commits, Collect(lines[i..], parse))
    {
      var line := lines[i];
      CollectAt(lines, i, parse);
      if line == [] {
        assert ParseLine(line, parse) == Skip;
        continue;
      }
      var fields := SplitFields(line);
      if fields.None? {
        assert ParseLine(line, parse) == Skip;
        continue;
      }
      var tag := MatchTag(fields.value.rest);
      if tag.Some? {
        var stamp := parse(ReplaceZ(fields.value.second));
        if stamp.None? {
          assert ParseLine(line, parse) == Fail(fields.value.second);
          assert Collect(lines, parse) == BadTimestamp(fields.value.second);
          return BadTimestamp(fields.value.second);
        }
        var commit := Commit(ShortHash(fields.value.first), stamp.value, fields.value.rest, tag.value);
        assert ParseLine(line, parse) == Keep(commit);
        ConcatSnoc(commits, commit, Collect(lines[i + 1..], parse));
        commits := commits + [commit];
      } else {
        assert ParseLine(line, parse) == Skip;
      }
    }
    assert lines[|lines|..] == [];
    r := Read(commits);
  }

  lemma CollectAt(lines: seq<string>, i: nat, parse: string -> Option<int>)
    requires i < |lines|
    ensures Collect(lines[i..], parse) == match ParseLine(lines[i], parse)
      case Skip => Collect(lines[i + 1..], parse)
      case Fail(d) => BadTimestamp(d)
      case Keep(c) => Prepend(c, Collect(lines[i + 1..], parse))
  {
    assert lines[i..][0] == lines[i];
    assert lines[i..][1..] == lines[i + 1..];
  }

  lemma ConcatSnoc(cs: seq<Commit>, c: Commit, e: Extracted)
    ensures Concat(cs, Prepend(c, e)) == Concat(cs + [c], e)
  {
    if e.Read? { assert cs + ([c] + e.commits) == cs + [c] + e.commits; }
  }

  // -----------------------------------------------------------------------
  // What reading promises
  // -----------------------------------------------------------------------

  /** A line of the form `hash|date|subject` (no `|` in hash or date) with a
      tagged subject and a date the parser accepts yields exactly the commit
      made of the short hash, the parsed date, the whole subject and its tag. */
  lemma ParseLineKeeps(hash: string, date: string, subject: string, parse: string -> Option<int>)
    requires '|' !in hash && '|' !in date
    requires TagOf(subject).Some? && parse(ReplaceZ(date)).Some?
    ensures ParseLine(hash + "|" + date + "|" + subject, parse)
      == Keep(Commit(ShortHash(hash), parse(ReplaceZ(date)).value, subject, TagOf(subject).value))
  {
    SplitFieldsComplete(hash, date, subject);
  }

  /** A line is skipped exactly when it is empty, does not split into three
      fields at its first two bars, or has a subject that carries no tag. */
  lemma ParseLineSkips(line: string, parse: string -> Option<int>)
    ensures ParseLine(line, parse) == Skip
      <==> line == [] || SplitFields(line).None? || TagOf(SplitFields(line).value.rest).None?
  {
  }

  /** A kept commit is classified by its own subject and has a short hash;
      the line it came from splits into that hash, a date and the subject. */
  lemma ParseLineKept(line: string, parse: string -> Option<int>)
    requires ParseLine(line, parse).Keep?
    ensures var c := ParseLine(line, parse).commit;
      Classified(c) && |c.hash| <= HashLength
      && SplitFields(line).Some? && c.message == SplitFields(line).value.rest
      && c.hash == ShortHash(SplitFields(line).value.first)
  {
  }

  /** A read succeeds exactly when no line fails. */
  lemma {:induction false} CollectSucceeds(lines: seq<string>, parse: string -> Option<int>)
    ensures Collect(lines, parse).Read? <==> forall k :: 0 <= k < |lines| ==> !ParseLine(lines[k], parse).Fail?
    decreases |lines|
  {
    if lines != [] {
      var rest := lines[1..];
      CollectSucceeds(rest, parse);
      assert forall k :: 0 < k < |lines| ==> lines[k] == rest[k - 1];
    }
  }

  /** What each line contributes, in order. */
  function Results(lines: seq<string>, parse: string -> Option<int>): seq<LineResult>
  {
    seq(|lines|, k requires 0 <= k < |lines| => ParseLine(lines[k], parse))
  }

  /** A successful read holds the commits of the lines that keep one. */
  lemma {:induction false} CollectMembers(lines: seq<string>, parse: string -> Option<int>, c: Commit)
    requires Collect(lines, parse).Read?
    ensures c in Collect(lines, parse).commits <==> Keep(c) in Results(lines, parse)
    decreases |lines|
  {
    if lines != [] {
      ResultsCons(lines, parse);
      CollectMembers(lines[1..], parse, c);
    }
  }

  /** The kept commits among the results, in the order of the lines. */
  function KeptOf(rs: seq<LineResult>): (cs: seq<Commit>)
    ensures |cs| <= |rs|
  {
    if rs == [] then [] else (if rs[0].Keep? then [rs[0].commit] else []) + KeptOf(rs[1..])
  }

  /** A successful read is the kept commits in the order of their lines:
      nothing is reordered, merged or dropped before the sort. */
  lemma {:induction false} CollectInOrder(lines: seq<string>, parse: string -> Option<int>)
    requires Collect(lines, parse).Read?
    ensures Collect(lines, parse).commits == KeptOf(Results(lines, parse))
    decreases |lines|
  {
    if lines != [] {
      ResultsCons(lines, parse);
      var rs := Results(lines, parse);
      assert rs[1..] == Results(lines[1..], parse);
      CollectInOrder(lines[1..], parse);
    }
  }

  /** Result `k` is the first failure, and it fails on `date`. */
  predicate FirstFailureAt(rs: seq<LineResult>, k: nat, date: string)
  {
    k < |rs| && rs[k] == Fail(date) && forall j :: 0 <= j < k ==> !rs[j].Fail?
  }

  /** A failed read reports the date of the first line that fails. */
  lemma {:induction false} CollectFirstFailure(lines: seq<string>, parse: string -> Option<int>)
    requires Collect(lines, parse).BadTimestamp?
    ensures exists k: nat :: FirstFailureAt(Results(lines, parse), k, Collect(lines, parse).date)
    decreases |lines|
  {
    ResultsCons(lines, parse);
    if ParseLine(lines[0], parse).Fail? {
      assert FirstFailureAt(Results(lines, parse), 0, Collect(lines, parse).date);
    } else {
      var rest := lines[1..];
      CollectFirstFailure(rest, parse);
      var k: nat :| FirstFailureAt(Results(rest, parse), k, Collect(rest, parse).date);
      FailureShift(ParseLine(lines[0], parse), Results(rest, parse), k, Collect(rest, parse).date);
    }
  }

  lemma ResultsCons(lines: seq<string>, parse: string -> Option<int>)
    requires lines != []
    ensures Results(lines, parse) == [ParseLine(lines[0], parse)] + Results(lines[1..], parse)
  {
    var rest := lines[1..];
    forall k | 0 < k < |lines| ensures Results(lines, parse)[k] == Results(rest, parse)[k - 1] {
      assert lines[k] == rest[k - 1];
    }
  }

  /** A first failure behind a result that is no failure is one place further
      on in the longer list. */
  lemma FailureShift(r: LineResult, rs: seq<LineResult>, k: nat, date: string)
    requires !r.Fail? && FirstFailureAt(rs, k, date)
    ensures FirstFailureAt([r] + rs, k + 1, date)
  {
    var all := [r] + rs;
    forall j | 0 <= j < k + 1 ensures !all[j].Fail? {
      if j > 0 { assert all[j] == rs[j - 1]; }
    }
  }

  /** `get_sred_commits` returns only classified commits with short hashes,
      oldest first, and they are exactly the commits of the lines that keep
      one; it fails exactly when some line's date is refused, and it then
      reports the first such date. */
  lemma SredCommitsMeaning(stdout: string, parse: string -> Option<int>)
    ensures var r := SredCommits(stdout, parse);
      r.Read? ==> (SortedByTime(r.commits)
        && (forall k :: 0 <= k < |r.commits| ==> Classified(r.commits[k]) && |r.commits[k].hash| <= HashLength)
        && (forall c :: c in r.commits <==> Keep(c) in Results(Lines(stdout), parse)))
    ensures SredCommits(stdout, parse).Read? <==> forall k :: 0 <= k < |Lines(stdout)| ==> !ParseLine(Lines(stdout)[k], parse).Fail?
    ensures var r := SredCommits(stdout, parse);
      r.BadTimestamp? ==> exists k: nat :: FirstFailureAt(Results(Lines(stdout), parse), k, r.date)
  {
    var lines := Lines(stdout);
    CollectSucceeds(lines, parse);
    var r := SredCommits(stdout, parse);
    if r.BadTimestamp? { CollectFirstFailure(lines, parse); }
    if r.Read? {
      var cs := Collect(lines, parse).commits;
      SameMembers(r.commits, cs);
      CollectKept(lines, parse);
      forall c ensures c in cs <==> Keep(c) in Results(lines, parse) {
        CollectMembers(lines, parse, c);
      }
    }
  }

  /** Commits with the same author date keep the order of their lines in
      the log: the sort is stable and the read keeps line order. */
  lemma SredCommitsStable(stdout: string, parse: string -> Option<int>, t: int)
    requires SredCommits(stdout, parse).Read?
    ensures StampedAt(SredCommits(stdout, parse).commits, t) == StampedAt(KeptOf(Results(Lines(stdout), parse)), t)
  {
    CollectInOrder(Lines(stdout), parse);
  }

  /** Every commit a successful read holds is classified and has a short
      hash. */
  lemma CollectKept(lines: seq<string>, parse: string -> Option<int>)
    requires Collect(lines, parse).Read?
    ensures forall c :: c in Collect(lines, parse).commits ==> Classified(c) && |c.hash| <= HashLength
  {
    forall c | c in Collect(lines, parse).commits ensures Classified(c) && |c.hash| <= HashLength {
      CollectMembers(lines, parse, c);
      var j :| 0 <= j < |lines| && Results(lines, parse)[j] == Keep(c);
      ParseLineKept(lines[j], parse);
    }
  }

  lemma SameMembers(a: seq<Commit>, b: seq<Commit>)
    requires multiset(a) == multiset(b)
    ensures forall c :: c in a <==> c in b
  {
    forall c ensures c in a <==> c in b {
      assert c in a <==> c in multiset(a);
      assert c in b <==> c in multiset(b);
    }
  }

  /** Every line is one commit at most, so there are never more commits than
      lines. */
  lemma {:induction false} CollectBound(lines: seq<string>, parse: string -> Option<int>)
    ensures Collect(lines, parse).Read? ==> |Collect(lines, parse).commits| <= |lines|
    decreases |lines|
  {
    if lines != [] { CollectBound(lines[1..], parse); }
  }
}
