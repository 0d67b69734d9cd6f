/**
 A watch joins what is already in the log to a live feed: subscribe first, then take a snapshot, then drop from
 the feed what the snapshot has covered. The feed polls the log and hands on its rows in batches.
 */
module WatchStitching {
  import opened Tables
  import opened SqlQueries

  /** The live filter: a prefix when it ends with a slash, otherwise one key. */
  predicate Matches(prefix: Key, name: Key) {
    (EndsWithSlash(prefix) && prefix <= name) || name == prefix
  }

  /** What a watch is for: rows that match and are no fillers, which the feed leaves out. */
  predicate Wanted(prefix: Key, name: Key) {
    Matches(prefix, name) && !IsFill(name)
  }

  /** The snapshot misses no wanted name, for a prefix that its own pattern finds. */
  lemma WantedIsListed(m: Matcher, prefix: Key, name: Key)
    requires MatchesKey(m, prefix, prefix) && Wanted(prefix, name)
    ensures MatchesKey(m, prefix, name)
  {
    if name != prefix {
      assert name == prefix + name[|prefix|..];
      match m
      case SqlLike => LikeItself(prefix, name[|prefix|..]);
      case DdsFilter =>
        var part := RemovePercent(PatternOf(prefix));
        assert PERCENT in PatternOf(prefix) by { assert PatternOf(prefix)[|prefix|] == PERCENT; }
        var i :| 0 <= i <= |prefix| - |part| && OccursAt(prefix, part, i);
        assert OccursAt(name, part, i);
    }
  }

  /** Under LIKE that is every prefix, in the engine every prefix without a percent sign. */
  lemma PrefixesFindThemselves(m: Matcher, prefix: Key)
    requires m.DdsFilter? ==> PERCENT !in prefix
    ensures MatchesKey(m, prefix, prefix)
  {
    LikeItself(prefix, []);
    assert prefix + [] == prefix;
    if m.DdsFilter? && EndsWithSlash(prefix) {
      RemovePercentPrefix(prefix);
      assert PatternOf(prefix)[|prefix|] == PERCENT;
      assert OccursAt(prefix, prefix, 0);
    }
  }

  ghost predicate MatchAlike(m: Matcher, prefix: Key) {
    forall name: Key {:trigger MatchesKey(m, prefix, name)} :: Wanted(prefix, name) <==> MatchesKey(m, prefix, name)
  }

  /** The engine looks for a prefix anywhere in a name. */
  lemma FoundInside(prefix: Key) returns (name: Key)
    requires EndsWithSlash(prefix)
    ensures MatchesKey(DdsFilter, prefix, name) && !Wanted(prefix, name)
  {
    var part := RemovePercent(PatternOf(prefix));
    name := [if prefix[0] == 0 then 1 else 0] + part;
    assert PatternOf(prefix)[|prefix|] == PERCENT;
    assert OccursAt(name, part, 1);
  }

  lemma MatchAlikeInEngine(prefix: Key)
    ensures MatchAlike(DdsFilter, prefix) <==> !EndsWithSlash(prefix) && PERCENT !in prefix && !IsFill(prefix)
  {
    if EndsWithSlash(prefix) {
      var name := FoundInside(prefix);
    } else if PERCENT in prefix {
      var name := RemovePercent(prefix);
      assert OccursAt(name, name, 0);
      assert MatchesKey(DdsFilter, prefix, name) && !Wanted(prefix, name);
    } else {
      assert MatchesKey(DdsFilter, prefix, prefix);
    }
  }

  lemma MatchAlikeInSql(prefix: Key)
    ensures MatchAlike(SqlLike, prefix) <==> Plain(prefix) && !IsFill(prefix)
  {
    if Plain(prefix) && !IsFill(prefix) {
      forall name: Key ensures Wanted(prefix, name) <==> MatchesKey(SqlLike, prefix, name) {
        LikePrefix(prefix, name);
        LikeExact(prefix, name);
        if Matches(prefix, name) && IsFill(name) { FillersBegin(prefix, name); }
      }
    } else if !Plain(prefix) {
      var name := Stranger(prefix);
      assert MatchesKey(SqlLike, prefix, name) && !Wanted(prefix, name);
    } else {
      PrefixesFindThemselves(SqlLike, prefix);
      assert !Wanted(prefix, prefix);
    }
  }

  /**
   Feed and snapshot select the same names exactly for prefixes that are no filler's and, under LIKE, have no wildcard;
   in the engine exactly for single keys without a percent sign.
   */
  lemma FeedAndSnapshotMatchAlike(m: Matcher, prefix: Key)
    ensures MatchAlike(m, prefix)
            <==> !IsFill(prefix)
                 && if m.SqlLike? then Plain(prefix) else !EndsWithSlash(prefix) && PERCENT !in prefix
  {
    match m
    case SqlLike => MatchAlikeInSql(prefix);
    case DdsFilter => MatchAlikeInEngine(prefix);
  }

  lemma FillersBegin(prefix: Key, name: Key)
    requires Matches(prefix, name) && IsFill(name)
    ensures IsFill(prefix)
  {
    if name != prefix {
      assert forall i :: 0 <= i < 4 ==> name[i] == GAP[i];
      assert forall i :: 0 <= i < |prefix| ==> prefix[i] == name[i];
    }
  }

  /** The wanted rows of a log with ids in (a, b]. */
  function Window(log: seq<Row>, prefix: Key, a: int, b: int): seq<Row> {
    Filter(log, (r: Row) => a < r.id <= b && Wanted(prefix, r.name))
  }

  lemma WindowShows(log: seq<Row>, prefix: Key, a: int, b: int)
    requires Ascending(log)
    ensures Ascending(Window(log, prefix, a, b))
    ensures forall r {:trigger r in Window(log, prefix, a, b)} ::
              r in Window(log, prefix, a, b) <==> r in log && a < r.id <= b && Wanted(prefix, r.name)
  {
    FilterAscending(log, (r: Row) => a < r.id <= b && Wanted(prefix, r.name));
  }

  lemma ConcatAscending(s: seq<Row>, t: seq<Row>, b: int)
    requires Ascending(s) && Ascending(t)
    requires forall r :: r in s ==> r.id <= b
    requires forall r :: r in t ==> b < r.id
    ensures Ascending(s + t)
  {
    forall i, j | 0 <= i < j < |s + t| ensures (s + t)[i].id < (s + t)[j].id {
      assert i < |s| ==> s[i] in s;
      assert |s| <= j ==> t[j - |s|] in t;
    }
  }

  lemma WindowSplits(log: seq<Row>, prefix: Key, a: int, b: int, c: int)
    requires Ascending(log) && a <= b <= c
    ensures Window(log, prefix, a, b) + Window(log, prefix, b, c) == Window(log, prefix, a, c)
  {
    WindowShows(log, prefix, a, b);
    WindowShows(log, prefix, b, c);
    WindowShows(log, prefix, a, c);
    var s, t := Window(log, prefix, a, b), Window(log, prefix, b, c);
    ConcatAscending(s, t, b);
    SameRowsSameSeq(s + t, Window(log, prefix, a, c));
  }

  lemma EmptyWindow(log: seq<Row>, prefix: Key, a: int, b: int)
    requires Ascending(log)
    requires forall r :: r in log && a < r.id <= b ==> !Wanted(prefix, r.name)
    ensures Window(log, prefix, a, b) == []
  {
    WindowShows(log, prefix, a, b);
    SameRowsSameSeq(Window(log, prefix, a, b), []);
  }

  lemma WindowKeepsOnAppend(log: seq<Row>, row: Row, prefix: Key, a: int, b: int)
    requires WellFormed(log) && MaxId(log) < row.id && 0 < row.id && b < row.id
    ensures Window(log + [row], prefix, a, b) == Window(log, prefix, a, b)
  {
    assert (log + [row])[..|log|] == log;
  }

  function Newer(events: seq<Row>, rev: int): seq<Row> {
    Filter(events, (r: Row) => rev < r.id)
  }

  lemma NewerConcat(a: seq<Row>, b: seq<Row>, rev: int)
    ensures Newer(a + b, rev) == Newer(a, rev) + Newer(b, rev)
  {
    FilterConcat(a, b, (r: Row) => rev < r.id);
  }

  lemma NewerWindow(log: seq<Row>, prefix: Key, a: int, b: int, rev: int)
    requires Ascending(log)
    ensures Newer(Window(log, prefix, a, b), rev) == Window(log, prefix, if a < rev then rev else a, b)
  {
    WindowShows(log, prefix, a, b);
    WindowShows(log, prefix, if a < rev then rev else a, b);
    FilterAscending(Window(log, prefix, a, b), (r: Row) => rev < r.id);
    SameRowsSameSeq(Newer(Window(log, prefix, a, b), rev), Window(log, prefix, if a < rev then rev else a, b));
  }

  /** logstructured.filter: drop leading events at or below a revision; on ascending events that drops them all. */
  method DropCovered(events: seq<Row>, rev: int) returns (rest: seq<Row>)
    requires Ascending(events)
    ensures rest == Newer(events, rev)
    ensures forall r :: r in rest <==> r in events && rev < r.id
  {
    rest := events;
    ghost var dropped := 0;
    while |rest| > 0 && rest[0].id <= rev
      invariant dropped <= |events| && rest == events[dropped..]
      invariant forall i :: 0 <= i < dropped ==> events[i].id <= rev
    {
      rest := rest[1..];
      dropped := dropped + 1;
    }
    NewerRest(events, dropped, rev);
  }

  lemma NewerRest(events: seq<Row>, n: nat, rev: int)
    requires Ascending(events) && n <= |events| && (n < |events| ==> rev < events[n].id)
    requires forall i :: 0 <= i < n ==> events[i].id <= rev
    ensures Newer(events, rev) == events[n..]
  {
    assert events == events[..n] + events[n..];
    NewerConcat(events[..n], events[n..], rev);
    AllNewer(events[n..], rev);
    NoneNewer(events[..n], rev);
  }

  lemma {:induction false} AllNewer(events: seq<Row>, rev: int)
    requires Ascending(events) && (events != [] ==> rev < events[0].id)
    ensures Newer(events, rev) == events
  {
    if events != [] { AllNewer(events[..|events| - 1], rev); }
  }

  lemma {:induction false} NoneNewer(events: seq<Row>, rev: int)
    requires forall i :: 0 <= i < |events| ==> events[i].id <= rev
    ensures Newer(events, rev) == []
  {
    if events != [] { NoneNewer(events[..|events| - 1], rev); }
  }

  function Flat(batches: seq<seq<Row>>): seq<Row> {
    if batches == [] then [] else Flat(batches[..|batches| - 1]) + batches[|batches| - 1]
  }

  lemma FlatOneMore(snapshot: seq<Row>, batches: seq<seq<Row>>, i: nat, rev: int)
    requires i < |batches|
    ensures snapshot + Newer(Flat(batches[..i + 1]), rev)
         == snapshot + Newer(Flat(batches[..i]), rev) + Newer(batches[i], rev)
  {
    assert batches[..i + 1][..i] == batches[..i];
    NewerConcat(Flat(batches[..i]), batches[i], rev);
  }

  ghost predicate AscendingBatches(batches: seq<seq<Row>>) {
    forall i :: 0 <= i < |batches| ==> Ascending(batches[i])
  }

  /** The goroutine of Watch: the snapshot, then every batch of the feed without what the snapshot covers. */
  method Stitch(snapshot: seq<Row>, rev: int, revision: int, batches: seq<seq<Row>>) returns (sent: seq<Row>)
    requires AscendingBatches(batches)
    ensures sent == Stitched(snapshot, rev, revision, batches)
  {
    var lastRevision := revision;
    if |snapshot| > 0 {
      lastRevision := rev;
    }
    sent := [];
    if |snapshot| > 0 {
      sent := sent + snapshot;
    }
    assert batches[..0] == [];
    for i := 0 to |batches|
      invariant sent == snapshot + Newer(Flat(batches[..i]), lastRevision)
    {
      var events := DropCovered(batches[i], lastRevision);
      FlatOneMore(snapshot, batches, i, lastRevision);
      sent := sent + events;
    }
    assert batches[..|batches|] == batches;
  }

  function Stitched(snapshot: seq<Row>, rev: int, revision: int, batches: seq<seq<Row>>): seq<Row> {
    snapshot + Newer(Flat(batches), if |snapshot| > 0 then rev else revision)
  }

  /** The revision a watch from `from` asks the snapshot for. */
  function SnapshotAfter(from: int): int {
    if from > 0 then from - 1 else from
  }

  /* The whole system over time: commits, polls, one watch. */

  datatype Phase = Idle | Subscribed | Streaming

  /** `since` is the cursor at subscription, `snapshot` and `rev` the answer of the snapshot query. */
  datatype System = System(log: seq<Row>, cursor: int, phase: Phase, since: int,
                           batches: seq<seq<Row>>, snapshot: seq<Row>, rev: int)

  datatype Step =
    | Commit(row: Row)
    | Poll(upTo: int)
    | Subscribe
    | Snapshot

  ghost predicate Enabled(s: System, step: Step) {
    match step
    case Commit(row) => 0 < row.id && MaxId(s.log) < row.id
    case Poll(upTo) => s.cursor < upTo <= MaxId(s.log)
    case Subscribe => s.phase == Idle
    case Snapshot => s.phase == Subscribed
  }

  function Next(s: System, step: Step, m: Matcher, prefix: Key, from: int): System {
    match step
    case Commit(row) => s.(log := s.log + [row])
    case Poll(upTo) =>
      // the rows after the cursor, without fillers, that the subscriber asked for
      var batch := Window(s.log, prefix, s.cursor, upTo);
      if s.phase == Idle || batch == [] then s.(cursor := upTo)
      else s.(cursor := upTo, batches := s.batches + [batch])
    case Subscribe => s.(phase := Subscribed, since := s.cursor)
    case Snapshot =>
      var snapshot := After(s.log, m, PatternOf(prefix), SnapshotAfter(from));
      s.(phase := Streaming, snapshot := snapshot, rev := if snapshot == [] then 0 else MaxId(s.log))
  }

  /** The revision from which on the feed is sent. */
  function Last(s: System, from: int): int {
    if s.snapshot == [] then SnapshotAfter(from) else s.rev
  }

  /** What holds in every state. */
  ghost predicate Inv(s: System, m: Matcher, prefix: Key, from: int) {
    && WellFormed(s.log) && 0 <= s.cursor <= MaxId(s.log)
    && AscendingBatches(s.batches)
    && (s.phase == Idle ==> s.batches == [])
    && (s.phase != Idle ==> 0 <= s.since <= s.cursor && Flat(s.batches) == Window(s.log, prefix, s.since, s.cursor))
    && (s.phase == Streaming ==>
          && SnapshotOk(s, m, prefix, from)
          && Newer(Flat(s.batches), Last(s, from)) == Window(s.log, prefix, Last(s, from), s.cursor))
  }

  /** What the snapshot query finds among the rows up to a revision. */
  function Seen(log: seq<Row>, m: Matcher, prefix: Key, a: int, b: int): seq<Row> {
    Filter(log, (r: Row) => a < r.id <= b && MatchesKey(m, prefix, r.name))
  }

  ghost predicate SnapshotOk(s: System, m: Matcher, prefix: Key, from: int) {
    && s.rev <= MaxId(s.log)
    && s.snapshot == Seen(s.log, m, prefix, SnapshotAfter(from), s.rev)
    && (s.snapshot == [] ==> s.rev == 0)
    && (s.snapshot != [] ==> s.since <= s.rev && SnapshotAfter(from) < s.rev)
  }

  /** How far the watch has come. */
  function Reach(s: System): int {
    if s.cursor < s.rev then s.rev else s.cursor
  }

  const START := System([], 0, Idle, 0, [], [], 0)

  lemma StartInv(m: Matcher, prefix: Key, from: int)
    ensures Inv(START, m, prefix, from)
  {}

  lemma SeenShows(log: seq<Row>, m: Matcher, prefix: Key, a: int, b: int)
    requires Ascending(log)
    ensures Ascending(Seen(log, m, prefix, a, b))
    ensures forall r {:trigger r in Seen(log, m, prefix, a, b)} ::
              r in Seen(log, m, prefix, a, b) <==> r in log && a < r.id <= b && MatchesKey(m, prefix, r.name)
  {
    FilterAscending(log, (r: Row) => a < r.id <= b && MatchesKey(m, prefix, r.name));
  }

  lemma SeenKeepsOnAppend(log: seq<Row>, row: Row, m: Matcher, prefix: Key, a: int, b: int)
    requires b < row.id
    ensures Seen(log + [row], m, prefix, a, b) == Seen(log, m, prefix, a, b)
  {
    assert (log + [row])[..|log|] == log;
  }

  lemma CommitKeepsInv(s: System, row: Row, m: Matcher, prefix: Key, from: int)
    requires Inv(s, m, prefix, from) && Enabled(s, Commit(row))
    ensures Inv(Next(s, Commit(row), m, prefix, from), m, prefix, from)
  {
    AppendAscending(s.log, row);
    WindowKeepsOnAppend(s.log, row, prefix, s.since, s.cursor);
    if s.phase == Streaming {
      WindowKeepsOnAppend(s.log, row, prefix, Last(s, from), s.cursor);
      SeenKeepsOnAppend(s.log, row, m, prefix, SnapshotAfter(from), s.rev);
    }
  }

  lemma SubscribeKeepsInv(s: System, m: Matcher, prefix: Key, from: int)
    requires Inv(s, m, prefix, from) && Enabled(s, Subscribe)
    ensures Inv(Next(s, Subscribe, m, prefix, from), m, prefix, from)
  {
    EmptyWindow(s.log, prefix, s.cursor, s.cursor);
  }

  /** Growing the far end of a window by what lies beyond it. */
  lemma WindowExtends(log: seq<Row>, prefix: Key, lo: int, reach: int, upTo: int)
    requires Ascending(log) && reach <= upTo
    ensures Window(log, prefix, lo, reach) + Window(log, prefix, if lo <= reach then reach else lo, upTo)
         == Window(log, prefix, lo, upTo)
  {
    if lo <= reach {
      WindowSplits(log, prefix, lo, reach, upTo);
    } else {
      EmptyWindow(log, prefix, lo, reach);
    }
  }

  /** What a poll hands on, none or one batch more. */
  lemma FeedGrows(s: System, upTo: int, m: Matcher, prefix: Key, from: int)
    requires Inv(s, m, prefix, from) && Enabled(s, Poll(upTo)) && s.phase != Idle
    ensures var batches := Next(s, Poll(upTo), m, prefix, from).batches;
            && AscendingBatches(batches)
            && Flat(batches) == Flat(s.batches) + Window(s.log, prefix, s.cursor, upTo)
  {
    var batch := Window(s.log, prefix, s.cursor, upTo);
    WindowShows(s.log, prefix, s.cursor, upTo);
    if batch == [] {
      assert Flat(s.batches) + batch == Flat(s.batches);
    } else {
      assert (s.batches + [batch])[..|s.batches|] == s.batches;
    }
  }

  lemma PollKeepsInv(s: System, upTo: int, m: Matcher, prefix: Key, from: int)
    requires Inv(s, m, prefix, from) && Enabled(s, Poll(upTo))
    ensures Inv(Next(s, Poll(upTo), m, prefix, from), m, prefix, from)
  {
    if s.phase != Idle {
      FeedGrows(s, upTo, m, prefix, from);
      WindowSplits(s.log, prefix, s.since, s.cursor, upTo);
      NewerConcat(Flat(s.batches), Window(s.log, prefix, s.cursor, upTo), Last(s, from));
      NewerWindow(s.log, prefix, s.cursor, upTo, Last(s, from));
      WindowExtends(s.log, prefix, Last(s, from), s.cursor, upTo);
    }
  }

  /** The snapshot is everything listed up to the newest row. */
  lemma SnapshotIsSeen(log: seq<Row>, m: Matcher, prefix: Key, lo: int)
    requires WellFormed(log)
    ensures After(log, m, PatternOf(prefix), lo) == Seen(log, m, prefix, lo, MaxId(log))
  {
    var pattern := PatternOf(prefix);
    FilterAscending(log, (r: Row) => lo < r.id && MatchesPattern(m, pattern, r.name));
    SeenShows(log, m, prefix, lo, MaxId(log));
    forall r | r in log ensures r.id <= MaxId(log) { MaxIdBounds(log, r); }
    SameRowsSameSeq(After(log, m, pattern, lo), Seen(log, m, prefix, lo, MaxId(log)));
  }

  /** What the feed has queued by the time of the snapshot is covered by it. */
  lemma FeedIsCovered(log: seq<Row>, m: Matcher, prefix: Key, since: int, cursor: int, lo: int)
    requires MatchesKey(m, prefix, prefix)
    requires WellFormed(log) && 0 <= since <= cursor <= MaxId(log)
    ensures var snapshot := Seen(log, m, prefix, lo, MaxId(log));
            var last := if snapshot == [] then lo else MaxId(log);
            && (snapshot != [] ==> lo < MaxId(log))
            && Newer(Window(log, prefix, since, cursor), last) == Window(log, prefix, last, cursor)
  {
    var snapshot := Seen(log, m, prefix, lo, MaxId(log));
    var last := if snapshot == [] then lo else MaxId(log);
    SeenShows(log, m, prefix, lo, MaxId(log));
    NewerWindow(log, prefix, since, cursor, last);
    if snapshot != [] {
      assert snapshot[0] in snapshot;
      EmptyWindow(log, prefix, last, cursor);
    } else {
      forall r | r in log && lo < r.id <= cursor ensures !Wanted(prefix, r.name) {
        assert r !in snapshot;
        if Wanted(prefix, r.name) { WantedIsListed(m, prefix, r.name); }
      }
      EmptyWindow(log, prefix, lo, cursor);
      EmptyWindow(log, prefix, if since < lo then lo else since, cursor);
    }
  }

  lemma SeenNothing(log: seq<Row>, m: Matcher, prefix: Key, lo: int)
    requires WellFormed(log)
    ensures Seen(log, m, prefix, lo, 0) == []
  {
    SeenShows(log, m, prefix, lo, 0);
    SameRowsSameSeq(Seen(log, m, prefix, lo, 0), []);
  }

  lemma SnapshotKeepsInv(s: System, m: Matcher, prefix: Key, from: int)
    requires MatchesKey(m, prefix, prefix)
    requires Inv(s, m, prefix, from) && Enabled(s, Snapshot)
    ensures Inv(Next(s, Snapshot, m, prefix, from), m, prefix, from)
  {
    SnapshotIsSeen(s.log, m, prefix, SnapshotAfter(from));
    FeedIsCovered(s.log, m, prefix, s.since, s.cursor, SnapshotAfter(from));
    SeenNothing(s.log, m, prefix, SnapshotAfter(from));
  }

  lemma StepKeepsInv(s: System, step: Step, m: Matcher, prefix: Key, from: int)
    requires MatchesKey(m, prefix, prefix)
    requires Inv(s, m, prefix, from) && Enabled(s, step)
    ensures Inv(Next(s, step, m, prefix, from), m, prefix, from)
  {
    match step
    case Commit(row) => CommitKeepsInv(s, row, m, prefix, from);
    case Poll(upTo) => PollKeepsInv(s, upTo, m, prefix, from);
    case Subscribe => SubscribeKeepsInv(s, m, prefix, from);
    case Snapshot => SnapshotKeepsInv(s, m, prefix, from);
  }

  ghost predicate Legal(s: System, steps: seq<Step>, m: Matcher, prefix: Key, from: int)
    decreases |steps|
  {
    steps == [] || (Enabled(s, steps[0]) && Legal(Next(s, steps[0], m, prefix, from), steps[1..], m, prefix, from))
  }

  ghost function Run(s: System, steps: seq<Step>, m: Matcher, prefix: Key, from: int): System
    requires Legal(s, steps, m, prefix, from)
    decreases |steps|
  {
    if steps == [] then s else Run(Next(s, steps[0], m, prefix, from), steps[1..], m, prefix, from)
  }

  lemma {:induction false} RunKeepsInv(s: System, steps: seq<Step>, m: Matcher, prefix: Key, from: int)
    requires MatchesKey(m, prefix, prefix)
    requires Inv(s, m, prefix, from) && Legal(s, steps, m, prefix, from)
    ensures Inv(Run(s, steps, m, prefix, from), m, prefix, from)
    decreases |steps|
  {
    if steps != [] {
      StepKeepsInv(s, steps[0], m, prefix, from);
      RunKeepsInv(Next(s, steps[0], m, prefix, from), steps[1..], m, prefix, from);
    }
  }

  /** The wanted ones among some events. */
  function Wants(events: seq<Row>, prefix: Key): seq<Row> {
    Filter(events, (r: Row) => Wanted(prefix, r.name))
  }

  /** What a watch that asked for `from` has sent. */
  function SentSoFar(s: System, from: int): seq<Row> {
    Stitched(s.snapshot, s.rev, SnapshotAfter(from), s.batches)
  }

  /** That is the snapshot, and the feed from there on. */
  lemma SentShows(s: System, m: Matcher, prefix: Key, from: int)
    requires Inv(s, m, prefix, from) && s.phase == Streaming
    ensures var sent := SentSoFar(s, from);
            && Ascending(sent)
            && forall r :: r in sent <==> r in s.snapshot || r in Window(s.log, prefix, Last(s, from), s.cursor)
  {
    SeenShows(s.log, m, prefix, SnapshotAfter(from), s.rev);
    WindowShows(s.log, prefix, Last(s, from), s.cursor);
    ConcatAscending(s.snapshot, Window(s.log, prefix, Last(s, from), s.cursor), Last(s, from));
  }

  /** ... so the wanted rows among it are all there are, as far as the watch has come. */
  lemma WantedIsSent(s: System, m: Matcher, prefix: Key, from: int, r: Row)
    requires MatchesKey(m, prefix, prefix)
    requires Inv(s, m, prefix, from) && s.phase == Streaming && r in s.log && Wanted(prefix, r.name)
    ensures r in s.snapshot || r in Window(s.log, prefix, Last(s, from), s.cursor)
            <==> SnapshotAfter(from) < r.id <= Reach(s)
  {
    SeenShows(s.log, m, prefix, SnapshotAfter(from), s.rev);
    WindowShows(s.log, prefix, Last(s, from), s.cursor);
    WantedIsListed(m, prefix, r.name);
  }

  /**
   However commits and polls interleave with subscribing and taking the snapshot: a watch from a revision sends its
   events in ascending order, and the wanted ones among them are exactly the wanted rows from that revision on, each
   once, as far as the feed has come. There is nothing else among them exactly when the snapshot found nothing else.
   */
  lemma WatchDeliversEverythingOnce(steps: seq<Step>, m: Matcher, prefix: Key, from: int)
    requires MatchesKey(m, prefix, prefix)
    requires Legal(START, steps, m, prefix, from)
    ensures var s := Run(START, steps, m, prefix, from);
            var sent := SentSoFar(s, from);
            var due := Window(s.log, prefix, SnapshotAfter(from), Reach(s));
            s.phase == Streaming ==>
              && Ascending(sent) && s.cursor <= Reach(s)
              && Wants(sent, prefix) == due
              && (sent == due <==> forall r :: r in s.snapshot ==> Wanted(prefix, r.name))
  {
    StartInv(m, prefix, from);
    RunKeepsInv(START, steps, m, prefix, from);
    var s := Run(START, steps, m, prefix, from);
    if s.phase == Streaming { SentIsDue(s, m, prefix, from); }
  }

  /** From a revision on, that one included; from 0 or below, from the start. */
  predicate From(from: int, id: int) {
    0 < from ==> from <= id
  }

  /** A wanted row is sent exactly if it is in the log, from the revision asked for on, and as far as the watch is. */
  lemma WantedIsSentIff(steps: seq<Step>, m: Matcher, prefix: Key, from: int, r: Row)
    requires MatchesKey(m, prefix, prefix) && Wanted(prefix, r.name)
    requires Legal(START, steps, m, prefix, from)
    ensures var s := Run(START, steps, m, prefix, from);
            s.phase == Streaming ==>
              (r in SentSoFar(s, from) <==> r in s.log && From(from, r.id) && (r.id <= s.rev || r.id <= s.cursor))
  {
    StartInv(m, prefix, from);
    RunKeepsInv(START, steps, m, prefix, from);
    var s := Run(START, steps, m, prefix, from);
    if s.phase == Streaming { SentOfState(s, m, prefix, from, r); }
  }

  lemma SentOfState(s: System, m: Matcher, prefix: Key, from: int, r: Row)
    requires MatchesKey(m, prefix, prefix) && Wanted(prefix, r.name)
    requires Inv(s, m, prefix, from) && s.phase == Streaming
    ensures r in SentSoFar(s, from) <==> r in s.log && From(from, r.id) && r.id <= Reach(s)
  {
    SentShows(s, m, prefix, from);
    SeenShows(s.log, m, prefix, SnapshotAfter(from), s.rev);
    WindowShows(s.log, prefix, Last(s, from), s.cursor);
    if r in s.log { WantedIsSent(s, m, prefix, from, r); }
  }

  /** Subscribed and with its snapshot taken, a watch has sent every wanted row there was, wherever the feed was. */
  lemma WatchStartsComplete(steps: seq<Step>, m: Matcher, prefix: Key, from: int)
    requires MatchesKey(m, prefix, prefix) && Legal(START, steps, m, prefix, from)
    requires Run(START, steps, m, prefix, from).phase == Idle
    ensures var s := Run(START, steps, m, prefix, from);
            var s' := Next(Next(s, Subscribe, m, prefix, from), Snapshot, m, prefix, from);
            && Enabled(s, Subscribe) && Enabled(Next(s, Subscribe, m, prefix, from), Snapshot)
            && s'.phase == Streaming && s'.log == s.log && s'.cursor == s.cursor
            && forall r :: r in s.log && Wanted(prefix, r.name) && From(from, r.id) ==> r in SentSoFar(s', from)
  {
    StartInv(m, prefix, from);
    RunKeepsInv(START, steps, m, prefix, from);
    var s := Run(START, steps, m, prefix, from);
    var s1 := Next(s, Subscribe, m, prefix, from);
    var s' := Next(s1, Snapshot, m, prefix, from);
    SubscribeKeepsInv(s, m, prefix, from);
    SnapshotKeepsInv(s1, m, prefix, from);
    SeenShows(s.log, m, prefix, SnapshotAfter(from), MaxId(s.log));
    SnapshotIsSeen(s.log, m, prefix, SnapshotAfter(from));
    forall r | r in s.log && Wanted(prefix, r.name) && From(from, r.id) ensures r in SentSoFar(s', from) {
      WantedIsListed(m, prefix, r.name);
      MaxIdBounds(s.log, r);
      assert r in s'.snapshot;
    }
  }

  /** A row committed while a watch streams is sent with the next poll that comes as far, if it is wanted. */
  lemma CommittedIsSent(steps: seq<Step>, m: Matcher, prefix: Key, from: int, row: Row)
    requires MatchesKey(m, prefix, prefix) && Legal(START, steps, m, prefix, from)
    requires Run(START, steps, m, prefix, from).phase == Streaming
    requires Enabled(Run(START, steps, m, prefix, from), Commit(row)) && Wanted(prefix, row.name) && From(from, row.id)
    ensures var s := Next(Run(START, steps, m, prefix, from), Commit(row), m, prefix, from);
            var s' := Next(s, Poll(row.id), m, prefix, from);
            Enabled(s, Poll(row.id)) && s'.cursor == row.id && row in SentSoFar(s', from)
  {
    StartInv(m, prefix, from);
    RunKeepsInv(START, steps, m, prefix, from);
    var s0 := Run(START, steps, m, prefix, from);
    var s := Next(s0, Commit(row), m, prefix, from);
    CommitKeepsInv(s0, row, m, prefix, from);
    PollKeepsInv(s, row.id, m, prefix, from);
    SentOfState(Next(s, Poll(row.id), m, prefix, from), m, prefix, from, row);
  }

  lemma SentIsDue(s: System, m: Matcher, prefix: Key, from: int)
    requires MatchesKey(m, prefix, prefix)
    requires Inv(s, m, prefix, from) && s.phase == Streaming
    ensures var sent := SentSoFar(s, from);
            var due := Window(s.log, prefix, SnapshotAfter(from), Reach(s));
            && Ascending(sent) && Wants(sent, prefix) == due
            && (sent == due <==> forall r :: r in s.snapshot ==> Wanted(prefix, r.name))
  {
    var sent := SentSoFar(s, from);
    var due := Window(s.log, prefix, SnapshotAfter(from), Reach(s));
    SentShows(s, m, prefix, from);
    SeenShows(s.log, m, prefix, SnapshotAfter(from), s.rev);
    WindowShows(s.log, prefix, Last(s, from), s.cursor);
    WindowShows(s.log, prefix, SnapshotAfter(from), Reach(s));
    forall r ensures r in sent && Wanted(prefix, r.name) <==> r in due {
      if r in s.log && Wanted(prefix, r.name) { WantedIsSent(s, m, prefix, from, r); }
    }
    FilterAscending(sent, (r: Row) => Wanted(prefix, r.name));
    SameRowsSameSeq(Wants(sent, prefix), due);
    if forall r :: r in s.snapshot ==> Wanted(prefix, r.name) {
      SameRowsSameSeq(sent, due);
    }
  }

  /**
   When rows can become visible out of id order, or the reported revision runs ahead of the rows, the snapshot may have
   holes at or below that revision. If it returned rows, the watch is complete exactly when no wanted row is missing
   there; if it returned none, always. (`log` is what the log ends up holding, `visible` what the snapshot saw, `rev`
   the revision it reported, and the feed covers (since, upTo].)
   */
  lemma HolesInTheSnapshotAreLost(log: seq<Row>, visible: seq<Row>, m: Matcher, prefix: Key, lo: int, since: int,
                                  rev: int, upTo: int)
    requires MatchesKey(m, prefix, prefix)
    requires WellFormed(log) && WellFormed(visible) && forall r :: r in visible ==> r in log
    requires forall r :: r in log && r.id <= since ==> r in visible
    requires MaxId(visible) <= rev && since <= rev <= upTo
    ensures var snapshot := After(visible, m, PatternOf(prefix), lo);
            var sent := Stitched(snapshot, rev, lo, [Window(log, prefix, since, upTo)]);
            Wants(sent, prefix) == Window(log, prefix, lo, upTo)
            <==> snapshot == []
                 || forall r :: r in log && lo < r.id <= rev && Wanted(prefix, r.name) ==> r in visible
  {
    var snapshot := After(visible, m, PatternOf(prefix), lo);
    var feed := Window(log, prefix, since, upTo);
    assert [feed][..0] == [] && Flat([feed]) == feed;
    SnapshotIsSeen(visible, m, prefix, lo);
    SeenShows(visible, m, prefix, lo, MaxId(visible));
    if snapshot == [] {
      forall r | r in log && lo < r.id <= since ensures !Wanted(prefix, r.name) {
        assert r !in snapshot;
        MaxIdBounds(visible, r);
        if Wanted(prefix, r.name) { WantedIsListed(m, prefix, r.name); }
      }
      FeedAlone(log, prefix, lo, since, upTo);
    } else {
      assert snapshot[0] in snapshot;
      NewerWindow(log, prefix, since, upTo, rev);
      WantsConcat(snapshot, Window(log, prefix, rev, upTo), prefix);
      AllWanted(log, prefix, rev, upTo);
      WindowSplits(log, prefix, lo, rev, upTo);
      CancelRight(Wants(snapshot, prefix), Window(log, prefix, lo, rev), Window(log, prefix, rev, upTo));
      SnapshotCovers(log, visible, m, prefix, lo, rev);
    }
  }

  /** Without a snapshot everything comes from the feed. */
  lemma FeedAlone(log: seq<Row>, prefix: Key, lo: int, since: int, upTo: int)
    requires WellFormed(log) && since <= upTo
    requires forall r :: r in log && lo < r.id <= since ==> !Wanted(prefix, r.name)
    ensures Wants([] + Newer(Window(log, prefix, since, upTo), lo), prefix) == Window(log, prefix, lo, upTo)
  {
    var from := if since < lo then lo else since;
    NewerWindow(log, prefix, since, upTo, lo);
    assert [] + Window(log, prefix, from, upTo) == Window(log, prefix, from, upTo);
    AllWanted(log, prefix, from, upTo);
    EmptyWindow(log, prefix, lo, since);
    if lo <= since { WindowSplits(log, prefix, lo, since, upTo); }
  }

  lemma WantsConcat(a: seq<Row>, b: seq<Row>, prefix: Key)
    ensures Wants(a + b, prefix) == Wants(a, prefix) + Wants(b, prefix)
  {
    FilterConcat(a, b, (r: Row) => Wanted(prefix, r.name));
  }

  lemma AllWanted(log: seq<Row>, prefix: Key, a: int, b: int)
    requires Ascending(log)
    ensures Wants(Window(log, prefix, a, b), prefix) == Window(log, prefix, a, b)
  {
    WindowShows(log, prefix, a, b);
    FilterAscending(Window(log, prefix, a, b), (r: Row) => Wanted(prefix, r.name));
    SameRowsSameSeq(Wants(Window(log, prefix, a, b), prefix), Window(log, prefix, a, b));
  }

  /** The wanted rows of the snapshot are all up to a revision exactly when none of those was invisible. */
  lemma SnapshotCovers(log: seq<Row>, visible: seq<Row>, m: Matcher, prefix: Key, lo: int, rev: int)
    requires MatchesKey(m, prefix, prefix)
    requires WellFormed(log) && WellFormed(visible) && MaxId(visible) <= rev && forall r :: r in visible ==> r in log
    ensures Wants(After(visible, m, PatternOf(prefix), lo), prefix) == Window(log, prefix, lo, rev)
            <==> forall r :: r in log && lo < r.id <= rev && Wanted(prefix, r.name) ==> r in visible
  {
    var wanted := Wants(After(visible, m, PatternOf(prefix), lo), prefix);
    SnapshotIsSeen(visible, m, prefix, lo);
    SeenShows(visible, m, prefix, lo, MaxId(visible));
    WindowShows(log, prefix, lo, rev);
    FilterAscending(Seen(visible, m, prefix, lo, MaxId(visible)), (r: Row) => Wanted(prefix, r.name));
    forall r | r in visible && Wanted(prefix, r.name) ensures r in wanted <==> lo < r.id {
      MaxIdBounds(visible, r);
      WantedIsListed(m, prefix, r.name);
    }
    if forall r :: r in log && lo < r.id <= rev && Wanted(prefix, r.name) ==> r in visible {
      forall r ensures r in wanted <==> r in Window(log, prefix, lo, rev) {
        if r in visible { MaxIdBounds(visible, r); }
      }
      SameRowsSameSeq(wanted, Window(log, prefix, lo, rev));
    } else {
      var r :| r in log && lo < r.id <= rev && Wanted(prefix, r.name) && r !in visible;
      assert r in Window(log, prefix, lo, rev) && r !in wanted;
    }
  }

  lemma CancelRight(a: seq<Row>, b: seq<Row>, c: seq<Row>)
    ensures a + c == b + c <==> a == b
  {
    if a + c == b + c {
      assert |a| == |b|;
      assert a == (a + c)[..|a|] && b == (b + c)[..|b|];
    }
  }

  /* The poll loop's handling of missing revisions. */

  datatype Request = Nothing | Retry(revision: int) | FillRow(revision: int)

  /** How many of the events may be fed: up to the first missing revision that has not been waited for. */
  function Sequential(events: seq<Row>, last: int, skip: int, waited: bool): (n: nat)
    ensures n <= |events|
  {
    if events == [] || !(events[0].id == last + 1 || (last + 1 == skip && waited)) then 0
    else 1 + Sequential(events[1..], events[0].id, skip, waited)
  }

  function WithoutFills(events: seq<Row>): seq<Row> {
    Filter(events, (r: Row) => !IsFill(r.name))
  }

  lemma SequentialAt(events: seq<Row>, i: nat, last: int, skip: int, waited: bool)
    requires i < |events|
    ensures Sequential(events[i..], last, skip, waited) ==
            if !(events[i].id == last + 1 || (last + 1 == skip && waited)) then 0
            else 1 + Sequential(events[i + 1..], events[i].id, skip, waited)
  {
    assert events[i..][0] == events[i] && events[i..][1..] == events[i + 1..];
  }

  lemma WithoutFillsAt(events: seq<Row>, i: nat)
    requires i < |events|
    ensures WithoutFills(events[..i + 1])
         == WithoutFills(events[..i]) + if IsFill(events[i].name) then [] else [events[i]]
  {
    assert events[..i + 1][..i] == events[..i];
  }

  /**
   One round over the rows after the cursor. A missing revision stops the round: it is looked for again at once,
   then filled by a row of its own, and only skipped when `waited` says it has been due for a second.
   */
  method PollRound(events: seq<Row>, last: int, skip: int, waited: bool)
    returns (sequential: seq<Row>, last': int, skip': int, request: Request)
    ensures var n := Sequential(events, last, skip, waited);
            && sequential == WithoutFills(events[..n])
            && last' == (if n == 0 then last else events[n - 1].id)
            && (n == |events| <==> request == Nothing)
            && (n < |events| ==> last' + 1 != events[n].id && request.revision == last' + 1
                                 && (request.Retry? <==> skip != last' + 1) && skip' == last' + 1)
            && (n == |events| ==> skip' == skip)
            && (forall r :: r in sequential <==> r in events[..n] && !(GAP <= r.name))
  {
    var rev := last;
    sequential, last', skip', request := [], last, skip, Nothing;
    var saveLast := false;
    ghost var n := Sequential(events, last, skip, waited);
    var i := 0;
    assert events[0..] == events;
    while i < |events|
      invariant 0 <= i <= |events|
      invariant n == i + Sequential(events[i..], rev, skip, waited)
      invariant sequential == WithoutFills(events[..i])
      invariant rev == (if i == 0 then last else events[i - 1].id)
      invariant saveLast <==> 0 < i
      invariant skip' == skip && request == Nothing
    {
      var next := rev + 1;
      SequentialAt(events, i, rev, skip, waited);
      if events[i].id != next {
        if next == skip && waited {
          // overdue: go on without it
        } else if skip != next {
          skip' := next;
          request := Retry(next);
          break;
        } else {
          request := FillRow(next);
          break;
        }
      }
      saveLast := true;
      rev := events[i].id;
      WithoutFillsAt(events, i);
      if !IsFill(events[i].name) {
        sequential := sequential + [events[i]];
      }
      i := i + 1;
    }
    assert i == |events| ==> events[i..] == [];
    if saveLast {
      last' := rev;
    }
  }

  /** Nothing is fed past a gap: the fed events continue one another without a missing revision in between. */
  lemma {:induction false} FedWithoutGaps(events: seq<Row>, last: int, skip: int, waited: bool, i: nat)
    requires i < Sequential(events, last, skip, waited)
    ensures var before := if i == 0 then last else events[i - 1].id;
            events[i].id == before + 1 || (before + 1 == skip && waited)
    decreases i
  {
    if 0 < i {
      FedWithoutGaps(events[1..], events[0].id, skip, waited, i - 1);
    }
  }

  /** ... and the round goes as far as it can: the event it stops at neither continues what was fed nor is overdue. */
  lemma {:induction false} StopsAtTheGap(events: seq<Row>, last: int, skip: int, waited: bool)
    requires Sequential(events, last, skip, waited) < |events|
    ensures var n := Sequential(events, last, skip, waited);
            var before := if n == 0 then last else events[n - 1].id;
            events[n].id != before + 1 && !(before + 1 == skip && waited)
    decreases |events|
  {
    if Sequential(events, last, skip, waited) != 0 {
      StopsAtTheGap(events[1..], events[0].id, skip, waited);
    }
  }

  /** The rows a poll reads: in order, above the cursor, and none left out below one that is there. */
  ghost predicate ReadAfter(log: seq<Row>, events: seq<Row>, last: int) {
    && WellFormed(log) && Ascending(events) && (forall r :: r in events ==> r in log && last < r.id)
    && forall r, x :: r in log && x in events && last < r.id <= x.id ==> r in events
  }

  /** The first events are the rows of the log up to the last of them. */
  lemma FirstEvents(log: seq<Row>, events: seq<Row>, last: int, n: nat)
    requires ReadAfter(log, events, last) && 0 < n <= |events|
    ensures last < events[n - 1].id <= MaxId(log)
    ensures Ascending(events[..n])
    ensures forall r :: r in events[..n] <==> r in log && last < r.id <= events[n - 1].id
  {
    var x := events[n - 1];
    assert x in events;
    MaxIdBounds(log, x);
    forall r | r in events ensures r in events[..n] <==> r.id <= x.id {
      var i :| 0 <= i < |events| && events[i] == r;
      if i < n { assert events[..n][i] == r; }
      if r in events[..n] {
        var j :| 0 <= j < n && events[j] == r;
      }
    }
    forall r | r in events[..n] ensures r in events {}
  }

  /** What a subscriber's filter leaves of them is the window of the feed. */
  lemma FilteredIsWindow(log: seq<Row>, fed: seq<Row>, prefix: Key, last: int, last': int)
    requires WellFormed(log) && Ascending(fed)
    requires forall r :: r in fed <==> r in log && last < r.id <= last'
    ensures Filter(WithoutFills(fed), (r: Row) => Matches(prefix, r.name)) == Window(log, prefix, last, last')
  {
    FilterAscending(fed, (r: Row) => !IsFill(r.name));
    FilterAscending(WithoutFills(fed), (r: Row) => Matches(prefix, r.name));
    WindowShows(log, prefix, last, last');
    SameRowsSameSeq(Filter(WithoutFills(fed), (r: Row) => Matches(prefix, r.name)), Window(log, prefix, last, last'));
  }

  /**
   So a round is one poll of the system above, up to the last event fed: a subscriber gets the wanted rows of the log
   from the old cursor to the new one.
   */
  lemma RoundIsPoll(log: seq<Row>, events: seq<Row>, last: int, skip: int, waited: bool, prefix: Key)
    requires ReadAfter(log, events, last)
    ensures var n := Sequential(events, last, skip, waited);
            var last' := if n == 0 then last else events[n - 1].id;
            && (n != 0 ==> last < last' <= MaxId(log))
            && Filter(WithoutFills(events[..n]), (r: Row) => Matches(prefix, r.name))
               == Window(log, prefix, last, last')
  {
    var n := Sequential(events, last, skip, waited);
    if n == 0 {
      assert events[..0] == [];
      FilteredIsWindow(log, [], prefix, last, last);
    } else {
      FirstEvents(log, events, last, n);
      FilteredIsWindow(log, events[..n], prefix, last, events[n - 1].id);
    }
  }
}
