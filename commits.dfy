/** Commits, the SR&ED tag vocabulary, the classifier that gives a commit
    message its tag, and the stable sort by timestamp. */
module Commits {
  import opened Text

  /** The tag vocabulary, in the order the classifier tries it. */
  const SredTags: seq<string> := ["exp:", "obs:", "test:", "fail:", "succeed:", "pivot:", "stop:"]

  /** The tag that opens a session. */
  const StartTags: seq<string> := ["exp:"]

  /** The tags that close a session. */
  const EndTags: seq<string> := ["succeed:", "pivot:", "stop:", "fail:"]

  /** A commit with its SR&ED tag; the timestamp is in whole seconds. */
  datatype Commit = Commit(hash: string, timestamp: int, message: string, tag: string)

  predicate IsSessionStart(c: Commit)
  {
    c.tag in StartTags
  }

  predicate IsSessionEnd(c: Commit)
  {
    c.tag in EndTags
  }

  /** Neither a start nor an end: what the session builder treats as an
      intermediate commit. */
  predicate IsIntermediate(c: Commit)
  {
    !IsSessionStart(c) && !IsSessionEnd(c)
  }

  /** The vocabulary splits into the start tag, the end tags and the two
      intermediate tags `obs:` and `test:`, with no tag in two roles. */
  lemma RolesPartitionTags()
    ensures forall t :: t in SredTags <==> t in StartTags || t in EndTags || t == "obs:" || t == "test:"
    ensures forall t :: t in StartTags ==> t !in EndTags
    ensures "obs:" !in StartTags && "obs:" !in EndTags && "test:" !in StartTags && "test:" !in EndTags
  {
  }

  // -----------------------------------------------------------------------
  // Classification
  // -----------------------------------------------------------------------

  /** The first entry of `tags` that is a prefix of `s`. */
  function FirstPrefix(tags: seq<string>, s: string): (r: Option<string>)
    ensures r.Some? ==> r.value in tags && r.value <= s
    ensures r.None? ==> forall k :: 0 <= k < |tags| ==> !(tags[k] <= s)
  {
    if tags == [] then None
    else if tags[0] <= s then Some(tags[0])
    else FirstPrefix(tags[1..], s)
  }

  /** The tag of a commit message: the first vocabulary entry that the
      lower-cased message starts with, or `None` for an untagged message. */
  function TagOf(message: string): Option<string>
  {
    FirstPrefix(SredTags, Lower(message))
  }

  /** The classifier loop: tries the vocabulary in order and stops at the
      first entry that the lower-cased message starts with. */
  method MatchTag(message: string) returns (tag: Option<string>)
    ensures tag == TagOf(message)
  {
    var lower := Lower(message);
    tag := None;
    var k := 0;
    while k < |SredTags|
      invariant 0 <= k <= |SredTags|
      invariant FirstPrefix(SredTags, lower) == FirstPrefix(SredTags[k..], lower)
    {
      FirstPrefixStep(SredTags, k, lower);
      if SredTags[k] <= lower {
        tag := Some(SredTags[k]);
        break;
      }
      k := k + 1;
    }
  }

  /** One step of the search: the entry at `k` matches, or the search goes
      on from `k + 1`. */
  lemma FirstPrefixStep(tags: seq<string>, k: nat, s: string)
    requires k < |tags|
    ensures FirstPrefix(tags[k..], s) == if tags[k] <= s then Some(tags[k]) else FirstPrefix(tags[k + 1..], s)
  {
    assert tags[k..][0] == tags[k];
    assert tags[k..][1..] == tags[k + 1..];
  }

  /** `FirstPrefix` returns the entry at the smallest index that matches. */
  lemma {:induction false} FirstPrefixIsFirst(tags: seq<string>, s: string, k: nat)
    requires k < |tags| && tags[k] <= s
    requires forall j :: 0 <= j < k ==> !(tags[j] <= s)
    ensures FirstPrefix(tags, s) == Some(tags[k])
  {
    if k > 0 {
      FirstPrefixIsFirst(tags[1..], s, k - 1);
    }
  }

  /** Every tag ends in its only colon. */
  predicate ColonTerminated(t: string)
  {
    |t| > 0 && t[|t| - 1] == ':' && forall i :: 0 <= i < |t| - 1 ==> t[i] != ':'
  }

  lemma ColonTerminatedPrefix(a: string, b: string)
    requires ColonTerminated(a) && ColonTerminated(b) && a <= b
    ensures a == b
  {
    assert b[|a| - 1] == a[|a| - 1];
  }

  lemma VocabularyColonTerminated()
    ensures forall k :: 0 <= k < |SredTags| ==> ColonTerminated(SredTags[k])
  {
    assert ColonTerminated("exp:");
    assert ColonTerminated("obs:");
    assert ColonTerminated("test:");
    assert ColonTerminated("fail:");
    assert ColonTerminated("succeed:");
    assert ColonTerminated("pivot:");
    assert ColonTerminated("stop:");
  }

  /** No vocabulary entry is a prefix of another one. */
  lemma VocabularyPrefixFree()
    ensures forall i, j :: 0 <= i < |SredTags| && 0 <= j < |SredTags| && i != j ==> !(SredTags[i] <= SredTags[j])
  {
    VocabularyColonTerminated();
    forall i, j | 0 <= i < |SredTags| && 0 <= j < |SredTags| && SredTags[i] <= SredTags[j]
      ensures i == j
    {
      ColonTerminatedPrefix(SredTags[i], SredTags[j]);
    }
  }

  /** Two prefixes of the same string are comparable by the prefix order. */
  lemma PrefixesComparable(a: string, b: string, s: string)
    requires a <= s && b <= s && |a| <= |b|
    ensures a <= b
  {
    assert b[..|a|] == s[..|a|];
  }

  /** Because the vocabulary is prefix-free, at most one entry can match a
      message; the classifier's first-match rule never breaks a tie. */
  lemma AtMostOneTagMatches(message: string, i: nat, j: nat)
    requires i < |SredTags| && j < |SredTags|
    requires SredTags[i] <= Lower(message) && SredTags[j] <= Lower(message)
    ensures i == j
  {
    VocabularyPrefixFree();
    if |SredTags[i]| <= |SredTags[j]| {
      PrefixesComparable(SredTags[i], SredTags[j], Lower(message));
    } else {
      PrefixesComparable(SredTags[j], SredTags[i], Lower(message));
    }
  }

  /** The classification, stated outright: a message gets exactly the
      vocabulary entry that its lower-cased form starts with, and no tag
      when there is none. */
  lemma TagOfMeaning(message: string)
    ensures TagOf(message).Some? <==> exists k :: 0 <= k < |SredTags| && SredTags[k] <= Lower(message)
    ensures forall k :: 0 <= k < |SredTags| && SredTags[k] <= Lower(message) ==> TagOf(message) == Some(SredTags[k])
  {
    forall k | 0 <= k < |SredTags| && SredTags[k] <= Lower(message)
      ensures TagOf(message) == Some(SredTags[k])
    {
      forall j | 0 <= j < k ensures !(SredTags[j] <= Lower(message)) {
        if SredTags[j] <= Lower(message) { AtMostOneTagMatches(message, j, k); }
      }
      FirstPrefixIsFirst(SredTags, Lower(message), k);
    }
  }

  /** A commit whose message was classified with its own tag. */
  predicate Classified(c: Commit)
  {
    TagOf(c.message) == Some(c.tag)
  }

  // -----------------------------------------------------------------------
  // Sorting by timestamp
  // -----------------------------------------------------------------------

  predicate SortedByTime(cs: seq<Commit>)
  {
    forall i, j :: 0 <= i < j < |cs| ==> cs[i].timestamp <= cs[j].timestamp
  }

  /** The commits of `cs` stamped `t`, in their order in `cs`. */
  function StampedAt(cs: seq<Commit>, t: int): seq<Commit>
  {
    if cs == [] then []
    else (if cs[0].timestamp == t then [cs[0]] else []) + StampedAt(cs[1..], t)
  }

  /** Inserts `c` in front of the first commit that is not earlier. */
  function InsertByTime(c: Commit, cs: seq<Commit>): (r: seq<Commit>)
    requires SortedByTime(cs)
    ensures SortedByTime(r)
    ensures multiset(r) == multiset(cs) + multiset{c}
    ensures forall t :: StampedAt(r, t) == if c.timestamp == t then [c] + StampedAt(cs, t) else StampedAt(cs, t)
  {
    if cs == [] || c.timestamp <= cs[0].timestamp then
      InsertFront(c, cs);
      [c] + cs
    else
      SortedByTimeTail(cs);
      var tail := InsertByTime(c, cs[1..]);
      InsertBehind(cs, c, tail);
      [cs[0]] + tail
  }

  lemma SortedByTimeTail(cs: seq<Commit>)
    requires SortedByTime(cs) && cs != []
    ensures SortedByTime(cs[1..])
  {
    forall i, j | 0 <= i < j < |cs| - 1 ensures cs[1..][i].timestamp <= cs[1..][j].timestamp {
      assert cs[1..][i] == cs[i + 1] && cs[1..][j] == cs[j + 1];
    }
  }

  lemma StampedAtCons(x: Commit, cs: seq<Commit>, t: int)
    ensures StampedAt([x] + cs, t) == (if x.timestamp == t then [x] else []) + StampedAt(cs, t)
  {
    assert ([x] + cs)[0] == x;
    assert ([x] + cs)[1..] == cs;
  }

  /** A list stays sorted when a commit no later than all of it goes in
      front. */
  lemma SortedCons(x: Commit, cs: seq<Commit>)
    requires SortedByTime(cs) && forall j :: 0 <= j < |cs| ==> x.timestamp <= cs[j].timestamp
    ensures SortedByTime([x] + cs)
  {
    forall i, j | 0 <= i < j < |cs| + 1 ensures ([x] + cs)[i].timestamp <= ([x] + cs)[j].timestamp {
      if i > 0 { assert ([x] + cs)[i] == cs[i - 1]; }
      assert ([x] + cs)[j] == cs[j - 1];
    }
  }

  /** `c` goes in front of a list whose head is not earlier. */
  lemma InsertFront(c: Commit, cs: seq<Commit>)
    requires SortedByTime(cs) && (cs == [] || c.timestamp <= cs[0].timestamp)
    ensures SortedByTime([c] + cs)
    ensures multiset([c] + cs) == multiset(cs) + multiset{c}
    ensures forall t :: StampedAt([c] + cs, t) == if c.timestamp == t then [c] + StampedAt(cs, t) else StampedAt(cs, t)
  {
    SortedCons(c, cs);
    forall t ensures StampedAt([c] + cs, t) == if c.timestamp == t then [c] + StampedAt(cs, t) else StampedAt(cs, t) {
      StampedAtCons(c, cs, t);
    }
  }

  /** The head of a sorted list is no later than anything in a list made of
      its tail and one later commit. */
  lemma HeadBound(cs: seq<Commit>, c: Commit, tail: seq<Commit>)
    requires SortedByTime(cs) && cs != [] && cs[0].timestamp < c.timestamp
    requires multiset(tail) == multiset(cs[1..]) + multiset{c}
    ensures forall j :: 0 <= j < |tail| ==> cs[0].timestamp <= tail[j].timestamp
  {
    forall j | 0 <= j < |tail| ensures cs[0].timestamp <= tail[j].timestamp {
      assert tail[j] in multiset(tail);
      if tail[j] != c {
        assert tail[j] in multiset(cs[1..]);
        var k :| 0 <= k < |cs[1..]| && cs[1..][k] == tail[j];
        assert cs[1..][k] == cs[k + 1];
      }
    }
  }

  /** `c` goes behind the head of `cs`, which is earlier. */
  lemma InsertBehind(cs: seq<Commit>, c: Commit, tail: seq<Commit>)
    requires SortedByTime(cs) && cs != [] && cs[0].timestamp < c.timestamp
    requires SortedByTime(tail) && multiset(tail) == multiset(cs[1..]) + multiset{c}
    requires forall t :: StampedAt(tail, t) == if c.timestamp == t then [c] + StampedAt(cs[1..], t) else StampedAt(cs[1..], t)
    ensures SortedByTime([cs[0]] + tail)
    ensures multiset([cs[0]] + tail) == multiset(cs) + multiset{c}
    ensures forall t :: StampedAt([cs[0]] + tail, t) == if c.timestamp == t then [c] + StampedAt(cs, t) else StampedAt(cs, t)
  {
    HeadBound(cs, c, tail);
    SortedCons(cs[0], tail);
    assert cs == [cs[0]] + cs[1..];
    forall t ensures StampedAt([cs[0]] + tail, t) == if c.timestamp == t then [c] + StampedAt(cs, t) else StampedAt(cs, t) {
      StampedBehind(cs, c, tail, t);
    }
  }

  lemma StampedBehind(cs: seq<Commit>, c: Commit, tail: seq<Commit>, t: int)
    requires cs != [] && cs[0].timestamp < c.timestamp
    requires StampedAt(tail, t) == if c.timestamp == t then [c] + StampedAt(cs[1..], t) else StampedAt(cs[1..], t)
    ensures StampedAt([cs[0]] + tail, t) == if c.timestamp == t then [c] + StampedAt(cs, t) else StampedAt(cs, t)
  {
    var x := cs[0];
    assert cs == [x] + cs[1..];
    StampedAtCons(x, tail, t);
    StampedAtCons(x, cs[1..], t);
  }

  /** `list.sort(key=timestamp)`: a stable sort by timestamp. The result is
      sorted, a permutation of the input, and keeps the input order among
      commits with equal timestamps. */
  function SortByTime(cs: seq<Commit>): (r: seq<Commit>)
    ensures SortedByTime(r)
    ensures multiset(r) == multiset(cs)
    ensures forall t :: StampedAt(r, t) == StampedAt(cs, t)
  {
    if cs == [] then []
    else
      assert cs == [cs[0]] + cs[1..];
      InsertByTime(cs[0], SortByTime(cs[1..]))
  }

  /** The timestamps of `cs`, in order. */
  function Times(cs: seq<Commit>): (ts: seq<int>)
    ensures |ts| == |cs|
  {
    if cs == [] then [] else [cs[0].timestamp] + Times(cs[1..])
  }

  lemma {:induction false} TimesAt(cs: seq<Commit>, i: nat)
    requires i < |cs|
    ensures Times(cs)[i] == cs[i].timestamp
  {
    if i > 0 { TimesAt(cs[1..], i - 1); }
  }

  lemma {:induction false} TimesAppend(a: seq<Commit>, b: seq<Commit>)
    ensures Times(a + b) == Times(a) + Times(b)
  {
    if a != [] {
      assert (a + b)[1..] == a[1..] + b;
      TimesAppend(a[1..], b);
    } else {
      assert a + b == b;
    }
  }

  predicate SortedInts(ts: seq<int>)
  {
    forall i, j :: 0 <= i < j < |ts| ==> ts[i] <= ts[j]
  }


  lemma SplitAt(b: seq<Commit>, i: nat)
    requires i < |b|
    ensures b == b[..i] + [b[i]] + b[i + 1..]
  {
  }

  lemma RemoveAt(b: seq<Commit>, i: nat)
    requires i < |b|
    ensures multiset(b[..i] + b[i + 1..]) == multiset(b) - multiset{b[i]}
  {
    SplitAt(b, i);
  }

  lemma TimesAround(left: seq<Commit>, x: Commit, right: seq<Commit>)
    ensures Times(left + [x] + right) == Times(left) + [x.timestamp] + Times(right)
  {
    TimesAppend(left + [x], right);
    TimesAppend(left, [x]);
    assert Times([x]) == [x.timestamp];
  }

  /** Taking one commit out of a list takes its timestamp out of the list's
      timestamps. */
  lemma TimesRemoveAt(b: seq<Commit>, i: nat)
    requires i < |b|
    ensures multiset(Times(b)) == multiset(Times(b[..i] + b[i + 1..])) + multiset{b[i].timestamp}
  {
    var left, x, right := b[..i], b[i], b[i + 1..];
    SplitAt(b, i);
    TimesAround(left, x, right);
    TimesAppend(left, right);
    MultisetAround(Times(left), x.timestamp, Times(right));
  }

  lemma MultisetAround(l: seq<int>, t: int, r: seq<int>)
    ensures multiset(l + [t] + r) == multiset(l + r) + multiset{t}
  {
  }

  /** Permuting commits permutes their timestamps. */
  lemma {:induction false} TimesPermutation(a: seq<Commit>, b: seq<Commit>)
    requires multiset(a) == multiset(b)
    ensures multiset(Times(a)) == multiset(Times(b))
    decreases |a|
  {
    if a == [] {
      assert |b| == |multiset(b)| == 0;
    } else {
      var x := a[0];
      assert x in multiset(b);
      var i :| 0 <= i < |b| && b[i] == x;
      RemoveAt(b, i);
      assert a == [x] + a[1..];
      assert multiset(a[1..]) == multiset(b[..i] + b[i + 1..]);
      TimesPermutation(a[1..], b[..i] + b[i + 1..]);
      TimesRemoveAt(b, i);
      TimesRemoveAt(a, 0);
      assert a[..0] + a[1..] == a[1..];
    }
  }

  /** The head of a sorted list is its least element. */
  lemma SortedHeadLeast(a: seq<int>, v: int)
    requires SortedInts(a) && v in multiset(a)
    ensures a[0] <= v
  {
    var i :| 0 <= i < |a| && a[i] == v;
  }

  lemma SortedIntsTail(a: seq<int>)
    requires SortedInts(a) && a != []
    ensures SortedInts(a[1..])
    ensures multiset(a[1..]) == multiset(a) - multiset{a[0]}
  {
    assert a == [a[0]] + a[1..];
    forall i, j | 0 <= i < j < |a| - 1 ensures a[1..][i] <= a[1..][j] {
      assert a[1..][i] == a[i + 1] && a[1..][j] == a[j + 1];
    }
  }

  /** Two sorted lists with one multiset have the same head, and their
      tails are sorted with one multiset. */
  lemma SortedIntsHeads(a: seq<int>, b: seq<int>)
    requires SortedInts(a) && SortedInts(b) && multiset(a) == multiset(b) && a != []
    ensures b != [] && a[0] == b[0]
    ensures SortedInts(a[1..]) && SortedInts(b[1..]) && multiset(a[1..]) == multiset(b[1..])
  {
    assert a[0] in multiset(b);
    assert b != [];
    SortedHeadLeast(a, b[0]);
    SortedHeadLeast(b, a[0]);
    SortedIntsTail(a);
    SortedIntsTail(b);
  }

  /** A sorted list of integers is determined by its multiset. */
  lemma {:induction false} SortedIntsUnique(a: seq<int>, b: seq<int>)
    requires SortedInts(a) && SortedInts(b) && multiset(a) == multiset(b)
    ensures a == b
    decreases |a|
  {
    if a == [] {
      assert |b| == |multiset(b)| == 0;
    } else {
      SortedIntsHeads(a, b);
      SortedIntsUnique(a[1..], b[1..]);
      assert a == [a[0]] + a[1..] && b == [b[0]] + b[1..];
    }
  }

  lemma SortedTimes(cs: seq<Commit>)
    requires SortedByTime(cs)
    ensures SortedInts(Times(cs))
  {
    forall i, j | 0 <= i < j < |cs| ensures Times(cs)[i] <= Times(cs)[j] {
      TimesAt(cs, i);
      TimesAt(cs, j);
    }
  }

  /** The timestamps of the sorted commits are the sorted timestamps: they
      depend only on the multiset of the input's timestamps. */
  lemma SortedTimesDetermined(a: seq<Commit>, b: seq<Commit>)
    requires multiset(Times(a)) == multiset(Times(b))
    ensures Times(SortByTime(a)) == Times(SortByTime(b))
  {
    var sa, sb := SortByTime(a), SortByTime(b);
    TimesPermutation(sa, a);
    TimesPermutation(sb, b);
    SortedTimes(sa);
    SortedTimes(sb);
    SortedIntsUnique(Times(sa), Times(sb));
  }
}
