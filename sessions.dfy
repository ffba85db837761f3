/** A work session and the fields derived from it for the report: its
    outcome, the tags it involves, its objective and its hypothesis id. */
module Sessions {
  import opened Text
  import opened Commits

  /** A session: a start commit, at most one end commit and the intermediate
      commits in arrival order. The id is the builder's counter value. */
  datatype Session = Session(id: nat, start: Commit, end: Option<Commit>, intermediates: seq<Commit>)

  predicate IsComplete(s: Session)
  {
    s.end.Some?
  }

  // -----------------------------------------------------------------------
  // outcome
  // -----------------------------------------------------------------------

  const InProgress: string := "IN_PROGRESS"

  /** `IN_PROGRESS` for an open session, otherwise the end tag upper-cased
      with its trailing colons stripped. */
  function Outcome(s: Session): string
  {
    if s.end.None? then InProgress else Upper(RStripChar(s.end.value.tag, ':'))
  }

  lemma EndTagOutcomes()
    ensures Upper(RStripChar("succeed:", ':')) == "SUCCEED"
    ensures Upper(RStripChar("pivot:", ':')) == "PIVOT"
    ensures Upper(RStripChar("stop:", ':')) == "STOP"
    ensures Upper(RStripChar("fail:", ':')) == "FAIL"
  {
    assert "succeed:"[..7] == "succeed";
    assert "pivot:"[..5] == "pivot";
    assert "stop:"[..4] == "stop";
    assert "fail:"[..4] == "fail";
  }

  predicate LowerWord(w: string)
  {
    forall i :: 0 <= i < |w| ==> 'a' <= w[i] <= 'z'
  }

  /** A lower-case word followed by a colon strips back to the word, whose
      upper-case form lower-cases back to it and is never `IN_PROGRESS`
      (which holds an underscore). */
  lemma WordTag(w: string)
    requires LowerWord(w)
    ensures RStripChar(w + ":", ':') == w
    ensures Lower(Upper(w)) == w
    ensures Upper(w) != InProgress
  {
    var t := w + ":";
    assert t[..|t| - 1] == w;
    assert w == [] || w[|w| - 1] != ':';
    assert Lower(Upper(w)) == w by {
      forall i | 0 <= i < |w| ensures Lower(Upper(w))[i] == w[i] { }
    }
    if |w| == |InProgress| { assert Upper(w)[2] != InProgress[2]; }
  }

  /** Every end tag is a lower-case word followed by one colon. */
  lemma EndTagShape(t: string)
    requires t in EndTags
    ensures |t| > 1 && t == t[..|t| - 1] + ":" && LowerWord(t[..|t| - 1])
  {
    if t == "succeed:" {
      assert t[..|t| - 1] == "succeed";
    } else if t == "pivot:" {
      assert t[..|t| - 1] == "pivot";
    } else if t == "stop:" {
      assert t[..|t| - 1] == "stop";
    } else {
      assert t[..|t| - 1] == "fail";
    }
  }

  /** For a session whose end commit (if any) carries an end tag, the outcome
      is `IN_PROGRESS` exactly when there is no end commit, and otherwise
      lower-casing the outcome and putting the colon back gives the end tag. */
  lemma OutcomeMeaning(s: Session)
    requires s.end.Some? ==> IsSessionEnd(s.end.value)
    ensures Outcome(s) == InProgress <==> !IsComplete(s)
    ensures IsComplete(s) ==> Lower(Outcome(s)) + ":" == s.end.value.tag
  {
    if s.end.Some? {
      var t := s.end.value.tag;
      EndTagShape(t);
      var w := t[..|t| - 1];
      WordTag(w);
      assert RStripChar(t, ':') == w;
    }
  }

  // -----------------------------------------------------------------------
  // tags_involved
  // -----------------------------------------------------------------------

  /** The set of tags of the session's commits. */
  ghost function TagSet(s: Session): set<string>
  {
    {s.start.tag} + (set k | 0 <= k < |s.intermediates| :: s.intermediates[k].tag)
    + (if s.end.Some? then {s.end.value.tag} else {})
  }

  /** `sorted(set(tags))`: the distinct tags of the session's commits in
      ascending order. The set that the source fills and then sorts is kept
      here as a list that stays sorted. */
  method TagsInvolved(s: Session) returns (tags: seq<string>)
    ensures StrictlySorted(tags)
    ensures forall t :: t in tags <==> t in TagSet(s)
  {
    tags := InsertSorted([], s.start.tag);
    for k := 0 to |s.intermediates|
      invariant StrictlySorted(tags)
      invariant forall t :: t in tags <==> t == s.start.tag || exists j :: 0 <= j < k && s.intermediates[j].tag == t
    {
      tags := InsertSorted(tags, s.intermediates[k].tag);
    }
    if s.end.Some? {
      tags := InsertSorted(tags, s.end.value.tag);
    }
  }

  /** The tag list holds no duplicates, holds the start tag, and holds the
      end tag when there is one; and it is the only sorted list of exactly
      these tags. */
  lemma TagsInvolvedMeaning(s: Session, tags: seq<string>, other: seq<string>)
    requires StrictlySorted(tags) && forall t :: t in tags <==> t in TagSet(s)
    requires StrictlySorted(other) && forall t :: t in other <==> t in TagSet(s)
    ensures forall i, j :: 0 <= i < j < |tags| ==> tags[i] != tags[j]
    ensures s.start.tag in tags
    ensures s.end.Some? ==> s.end.value.tag in tags
    ensures other == tags
  {
    forall i, j | 0 <= i < j < |tags| ensures tags[i] != tags[j] {
      if tags[i] == tags[j] { LessIrreflexive(tags[i]); }
    }
    StrictlySortedUnique(tags, other);
  }

  // -----------------------------------------------------------------------
  // objective
  // -----------------------------------------------------------------------

  const ObjectiveLimit: nat := 100

  /** The start message with its tag prefix cut off and stripped; the message
      as it is when it carries no tag. */
  function ObjectiveBody(message: string): string
  {
    match TagOf(message)
    case None => message
    case Some(t) => Strip(message[|t|..])
  }

  /** At most 100 characters of the body; "..." marks a cut. */
  function Truncate(body: string): (r: string)
    ensures |r| <= ObjectiveLimit + 3
    ensures |body| <= ObjectiveLimit ==> r == body
    ensures |body| > ObjectiveLimit ==> |r| == ObjectiveLimit + 3 && r[..ObjectiveLimit] == body[..ObjectiveLimit] && r[ObjectiveLimit..] == "..."
  {
    if |body| > ObjectiveLimit then body[..ObjectiveLimit] + "..." else body
  }

  /** `objective`: runs the classifier loop on the start message, cuts the
      matched tag off the original message, strips it and truncates it. */
  method Objective(s: Session) returns (objective: string)
    ensures objective == Truncate(ObjectiveBody(s.start.message))
    ensures |objective| <= ObjectiveLimit + 3
  {
    var msg := s.start.message;
    var tag := MatchTag(msg);
    if tag.Some? {
      msg := Strip(msg[|tag.value|..]);
    }
    objective := if |msg| > ObjectiveLimit then msg[..ObjectiveLimit] + "..." else msg;
  }

  /** A tagged start message loses its tag: for an `exp:` commit the body
      is what follows the first four characters, stripped. */
  lemma ObjectiveOfStart(s: Session)
    requires IsSessionStart(s.start) && Classified(s.start)
    ensures ObjectiveBody(s.start.message) == Strip(s.start.message[4..])
  {
  }

  // -----------------------------------------------------------------------
  // hypothesis_id
  // -----------------------------------------------------------------------

  const Unknown: string := "UNKNOWN"

  predicate IsDigit(c: char)
  {
    '0' <= c <= '9'
  }

  /** The pattern `EXP-\d+` can match at position `i`. */
  predicate MatchesAt(msg: string, i: nat)
  {
    i + 5 <= |msg| && msg[i..i + 4] == "EXP-" && IsDigit(msg[i + 4])
  }

  /** `r` is the text at `i`: `EXP-` and the whole run of digits after it,
      with no digit right after `r`. */
  predicate IdAt(message: string, i: nat, r: string)
  {
    5 <= |r| && i + |r| <= |message| && r == message[i..i + |r|] && r[..4] == "EXP-"
    && (forall k :: 4 <= k < |r| ==> IsDigit(r[k]))
    && (i + |r| == |message| || !IsDigit(message[i + |r|]))
  }

  /** The length of the run of digits starting at `i`. */
  function DigitRun(msg: string, i: nat): (n: nat)
    requires i <= |msg|
    ensures i + n <= |msg|
    ensures forall k :: i <= k < i + n ==> IsDigit(msg[k])
    ensures i + n == |msg| || !IsDigit(msg[i + n])
    decreases |msg| - i
  {
    if i < |msg| && IsDigit(msg[i]) then 1 + DigitRun(msg, i + 1) else 0
  }

  /** The leftmost position at or after `from` where the pattern matches. */
  function FindFrom(msg: string, from: nat): (r: Option<nat>)
    ensures r.Some? ==> from <= r.value && MatchesAt(msg, r.value)
    ensures r.Some? ==> forall j :: from <= j < r.value ==> !MatchesAt(msg, j)
    ensures r.None? ==> forall j :: from <= j ==> !MatchesAt(msg, j)
    decreases |msg| - from
  {
    if from + 5 > |msg| then None
    else if MatchesAt(msg, from) then Some(from)
    else FindFrom(msg, from + 1)
  }

  /** `re.search(r'EXP-\d+', message)`: the leftmost match, with its digit
      run taken as long as it goes; `UNKNOWN` when there is none. A session's
      `hypothesis_id` is this function of its start message. */
  function HypothesisIdOf(message: string): (r: string)
  {
    match FindFrom(message, 0)
    case None => Unknown
    case Some(i) => message[i..i + 4 + DigitRun(message, i + 4)]
  }

  /** The id is `UNKNOWN` exactly when the message holds no `EXP-` followed
      by a digit. */
  lemma HypothesisIdUnknown(message: string)
    ensures HypothesisIdOf(message) == Unknown <==> forall i: nat :: !MatchesAt(message, i)
  {
    var f := FindFrom(message, 0);
    if f.Some? {
      var r := HypothesisIdOf(message);
      assert r[0] == message[f.value] == 'E';
      assert Unknown[0] == 'U';
    }
  }

  /** The leftmost match is the one the search finds. */
  lemma FindLeftmost(message: string, i: nat)
    requires MatchesAt(message, i) && forall j: nat :: j < i ==> !MatchesAt(message, j)
    ensures FindFrom(message, 0) == Some(i)
  {
    var f := FindFrom(message, 0);
    assert f.Some? by { assert !(forall j :: 0 <= j ==> !MatchesAt(message, j)); }
    assert !(f.value < i);
    assert !(i < f.value);
  }

  /** At the place `i` the search finds, the id is the text from `i` on:
      `EXP-` and the whole run of digits after it, with no digit right after
      the id. */
  lemma HypothesisIdAt(message: string, i: nat)
    requires FindFrom(message, 0) == Some(i)
    ensures IdAt(message, i, HypothesisIdOf(message))
  {
    var n := DigitRun(message, i + 4);
    assert HypothesisIdOf(message) == message[i..i + 4 + n];
    IdSlice(message, i, n);
  }

  /** The slice of `EXP-` at `i` and the `n` digits after it, when no digit
      follows them. */
  lemma IdSlice(message: string, i: nat, n: nat)
    requires MatchesAt(message, i) && i + 4 + n <= |message|
    requires forall k :: i + 4 <= k < i + 4 + n ==> IsDigit(message[k])
    requires i + 4 + n == |message| || !IsDigit(message[i + 4 + n])
    ensures IdAt(message, i, message[i..i + 4 + n])
  {
    var r := message[i..i + 4 + n];
    assert r[..4] == message[i..i + 4];
    forall k | 4 <= k < |r| ensures IsDigit(r[k]) {
      assert r[k] == message[i + k];
    }
  }

  /** `hypothesis_id` stated outright: `UNKNOWN` exactly when there is no
      match, and otherwise `EXP-` and the maximal digit run at the leftmost
      match. */
  lemma HypothesisIdMeaning(message: string)
    ensures HypothesisIdOf(message) == Unknown <==> forall i: nat :: !MatchesAt(message, i)
    ensures forall i: nat :: MatchesAt(message, i) && (forall j: nat :: j < i ==> !MatchesAt(message, j)) ==>
      IdAt(message, i, HypothesisIdOf(message))
  {
    HypothesisIdUnknown(message);
    forall i: nat | MatchesAt(message, i) && (forall j: nat :: j < i ==> !MatchesAt(message, j))
      ensures IdAt(message, i, HypothesisIdOf(message))
    {
      FindLeftmost(message, i);
      HypothesisIdAt(message, i);
    }
  }
}
