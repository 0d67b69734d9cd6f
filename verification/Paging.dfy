/**
 Lists in pages: the range handler with its continuation keys, the loader that collects leased keys, and the
 backend's list with its relist. All of them walk one list at a fixed revision, restarted by a corner of the
 backend: a start key equal to the prefix means "from the beginning".
 */
module Paging {
  import opened Tables
  import opened SqlQueries
  import Compaction

  /** All live keys under a prefix at a revision, in ascending order of their newest row. */
  function LiveList(t: seq<Row>, prefix: Key, rev: int): seq<Row> {
    ListRevision(t, prefix + [PERCENT], rev, false)
  }

  ghost predicate Names(list: seq<Row>, k: Key) {
    exists r :: r in list && r.name == k
  }

  /** The list names exactly the live keys that match, once each; those under the prefix are always among them. */
  lemma LiveListIsComplete(t: seq<Row>, prefix: Key, rev: int)
    requires WellFormed(t)
    ensures forall k :: Names(LiveList(t, prefix, rev), k) <==> Like(prefix + [PERCENT], k) && LookupAt(t, k, rev).Some?
    ensures forall k :: prefix <= k && LookupAt(t, k, rev).Some? ==> Names(LiveList(t, prefix, rev), k)
    ensures var list := LiveList(t, prefix, rev);
            forall i, j :: 0 <= i < j < |list| ==> list[i].name != list[j].name
  {
    var list := LiveList(t, prefix, rev);
    forall k ensures Names(list, k) <==> Like(prefix + [PERCENT], k) && LookupAt(t, k, rev).Some? {
      NamesTheLive(t, prefix, rev, k);
    }
    forall k | prefix <= k ensures Like(prefix + [PERCENT], k) {
      LikeItself(prefix, k[|prefix|..]);
      assert k == prefix + k[|prefix|..];
    }
    SqlListShows(t, Selection(SqlLike, prefix + [PERCENT], 0, rev), false);
    forall i, j | 0 <= i < j < |list| ensures list[i].name != list[j].name {
      assert list[i] in list && list[j] in list;
      ListIsLiveView(t, prefix + [PERCENT], rev, list[i]);
      ListIsLiveView(t, prefix + [PERCENT], rev, list[j]);
    }
  }

  lemma NamesTheLive(t: seq<Row>, prefix: Key, rev: int, k: Key)
    requires WellFormed(t)
    ensures Names(LiveList(t, prefix, rev), k) <==> Like(prefix + [PERCENT], k) && LookupAt(t, k, rev).Some?
  {
    var list := LiveList(t, prefix, rev);
    LatestIsLatest(t, k, rev);
    if LookupAt(t, k, rev).Some? { ListIsLiveView(t, prefix + [PERCENT], rev, Latest(t, k, rev).value); }
    if r :| r in list && r.name == k { ListIsLiveView(t, prefix + [PERCENT], rev, r); }
  }

  ghost predicate NamesOnlyUnder(list: seq<Row>, prefix: Key) {
    forall k :: Names(list, k) ==> prefix <= k
  }

  /** Keys from elsewhere can show up exactly if the prefix has a wildcard. */
  lemma ForeignNamesIff(prefix: Key)
    ensures (forall t, rev :: WellFormed(t) ==> NamesOnlyUnder(LiveList(t, prefix, rev), prefix)) <==> Plain(prefix)
  {
    if Plain(prefix) {
      forall t, rev | WellFormed(t) ensures NamesOnlyUnder(LiveList(t, prefix, rev), prefix) {
        LiveListIsComplete(t, prefix, rev);
        forall k | Names(LiveList(t, prefix, rev), k) ensures prefix <= k { LikePrefix(prefix, k); }
      }
    } else {
      var name := Stranger(prefix);
      var row := Row(1, name, true, false, 0, 0, 0, [], []);
      LatestUnique([row], name, 1, Some(row));
      NamesTheLive([row], prefix, 1, name);
      assert !NamesOnlyUnder(LiveList([row], prefix, 1), prefix);
    }
  }

  lemma {:induction false} SlashedMatchesAreNotEmpty(prefix: Key, name: Key)
    requires EndsWithSlash(prefix) && Like(prefix + [PERCENT], name)
    ensures name != []
    decreases |prefix|
  {
    if prefix[0] == PERCENT && name == [] {
      assert (prefix + [PERCENT])[1..] == prefix[1..] + [PERCENT];
      SlashedMatchesAreNotEmpty(prefix[1..], name);
    }
  }

  /** What remains after an entry of the list, and the corner: after the key that is the prefix itself, everything. */
  lemma RestAfterEntry(t: seq<Row>, prefix: Key, rev: int, i: nat)
    requires WellFormed(t) && EndsWithSlash(prefix) && 0 < rev
    requires i < |LiveList(t, prefix, rev)|
    ensures var list := LiveList(t, prefix, rev);
            LogList(t, prefix, list[i].name, 0, rev) == if list[i].name == prefix then list else list[i + 1..]
  {
    var list := LiveList(t, prefix, rev);
    assert list[i] in list;
    ListIsLiveView(t, prefix + [PERCENT], rev, list[i]);
    SlashedMatchesAreNotEmpty(prefix, list[i].name);
    ContinueAfterEntry(t, prefix + [PERCENT], rev, false, i);
  }

  lemma RestFromTheStart(t: seq<Row>, prefix: Key, rev: int, start: Key)
    requires EndsWithSlash(prefix) && 0 < rev && (start == [] || start == prefix)
    ensures LogList(t, prefix, start, 0, rev) == LiveList(t, prefix, rev)
  {}

  lemma LimitLater(t: seq<Row>, prefix: Key, start: Key, limit: int, rev: int)
    ensures LogList(t, prefix, start, limit, rev) == Limit(LogList(t, prefix, start, 0, rev), limit)
  {}

  function PageEnd(list: seq<Row>, limit: nat, pos: nat): nat {
    if pos + limit < |list| then pos + limit else |list|
  }

  /**
   The walk in pages of `limit` from position `pos` comes to a page that ends with the key equal to the prefix
   and is continued. A walk until an empty page continues every page, other walks all but the last.
   */
  predicate Restarts(list: seq<Row>, prefix: Key, limit: nat, pos: nat, untilEmpty: bool)
    requires 0 < limit
    decreases |list| - pos
  {
    && pos < |list|
    && var end := PageEnd(list, limit, pos);
       (untilEmpty || end < |list|) && (list[end - 1].name == prefix || Restarts(list, prefix, limit, end, untilEmpty))
  }

  lemma NoRestart(list: seq<Row>, prefix: Key, limit: nat, pos: nat, untilEmpty: bool)
    requires 0 < limit && pos < |list| && !Restarts(list, prefix, limit, pos, untilEmpty)
    ensures var end := PageEnd(list, limit, pos);
            pos < end <= |list| && (untilEmpty || end < |list| ==>
              list[end - 1].name != prefix && !Restarts(list, prefix, limit, end, untilEmpty))
  {}

  predicate Multiple(x: int, n: nat)
    requires 0 < n
    decreases x
  {
    x == 0 || (n <= x && Multiple(x - n, n))
  }

  lemma {:induction false} MultipleOf(x: nat, n: nat) returns (k: nat)
    requires 0 < n && Multiple(x, n)
    ensures x == k * n
    decreases x
  {
    k := 0;
    if x != 0 {
      var j := MultipleOf(x - n, n);
      k := j + 1;
    }
  }

  lemma {:induction false} TimesIsMultiple(k: nat, n: nat)
    requires 0 < n
    ensures Multiple(k * n, n)
  {
    if k != 0 {
      TimesIsMultiple(k - 1, n);
      assert k * n - n == (k - 1) * n;
    }
  }

  lemma {:induction false} MultiplesAreApart(x: nat, d: nat, n: nat)
    requires 0 < d < n && Multiple(x, n)
    ensures !Multiple(x + d, n)
    decreases x
  {
    if x != 0 { MultiplesAreApart(x - n, d, n); }
  }

  /** Position `i` is the last of a page that the walk continues. */
  predicate EndsPage(list: seq<Row>, limit: nat, i: nat, untilEmpty: bool)
    requires 0 < limit
  {
    i < |list| && (Multiple(i + 1, limit) || i + 1 == |list|) && (untilEmpty || i + 1 < |list|)
  }

  /** In terms of positions: the key equal to the prefix sits at the end of a page. */
  lemma {:induction false} RestartsAtPageEnds(list: seq<Row>, prefix: Key, limit: nat, pos: nat, untilEmpty: bool)
    requires 0 < limit && Multiple(pos, limit)
    ensures Restarts(list, prefix, limit, pos, untilEmpty) <==>
            exists i :: pos <= i && EndsPage(list, limit, i, untilEmpty) && list[i].name == prefix
    decreases |list| - pos
  {
    if pos < |list| {
      var end := if pos + limit < |list| then pos + limit else |list|;
      forall i | pos <= i < end - 1 ensures !EndsPage(list, limit, i, untilEmpty) {
        MultiplesAreApart(pos, i + 1 - pos, limit);
      }
      if end == pos + limit {
        RestartsAtPageEnds(list, prefix, limit, end, untilEmpty);
      }
      assert EndsPage(list, limit, end - 1, untilEmpty) <==> untilEmpty || end < |list|;
    }
  }

  /** The key the next request starts after. */
  function LastKey(rest: seq<Row>, limit: nat): Key
    requires rest != [] && 0 < limit
  {
    var page := Limit(rest, limit);
    page[|page| - 1].name
  }

  /** What the log lists after a key, at a revision. */
  function AfterKey(t: seq<Row>, prefix: Key, rev: int): Key -> seq<Row> {
    (start: Key) => LogList(t, prefix, start, 0, rev)
  }

  /** The walk that continues after the last key of each page ends within `n` further requests. */
  predicate Stops(after: Key -> seq<Row>, limit: nat, untilEmpty: bool, start: Key, n: nat)
    requires 0 < limit
    decreases n
  {
    var rest := after(start);
    || rest == []
    || (!untilEmpty && |rest| <= limit)
    || (0 < n && Stops(after, limit, untilEmpty, LastKey(rest, limit), n - 1))
  }

  /** After each entry of the list comes the rest of it, and after the key equal to the prefix all of it. */
  ghost predicate Continues(after: Key -> seq<Row>, list: seq<Row>, prefix: Key) {
    forall i {:trigger after(list[i].name)} :: 0 <= i < |list| ==>
      after(list[i].name) == if list[i].name == prefix then list else list[i + 1..]
  }

  lemma LogContinues(t: seq<Row>, prefix: Key, rev: int)
    requires WellFormed(t) && EndsWithSlash(prefix) && 0 < rev
    ensures Continues(AfterKey(t, prefix, rev), LiveList(t, prefix, rev), prefix)
  {
    forall i | 0 <= i < |LiveList(t, prefix, rev)|
      ensures var list := LiveList(t, prefix, rev);
              LogList(t, prefix, list[i].name, 0, rev) == if list[i].name == prefix then list else list[i + 1..]
    {
      RestAfterEntry(t, prefix, rev, i);
    }
  }

  lemma LastOfPage(list: seq<Row>, limit: nat, pos: nat)
    requires pos < |list| && 0 < limit
    ensures LastKey(list[pos..], limit) == list[PageEnd(list, limit, pos) - 1].name
    ensures Limit(list[pos..], limit) == list[pos..PageEnd(list, limit, pos)]
  {
    assert list[pos..][..PageEnd(list, limit, pos) - pos] == list[pos..PageEnd(list, limit, pos)];
  }

  lemma WholeSlice(list: seq<Row>)
    ensures list[0..] == list
  {}

  lemma StopsOneEarlier(after: Key -> seq<Row>, limit: nat, untilEmpty: bool, start: Key, n: nat)
    requires 0 < limit && 0 < n && after(start) != []
    requires Stops(after, limit, untilEmpty, LastKey(after(start), limit), n - 1)
    ensures Stops(after, limit, untilEmpty, start, n)
  {}

  lemma StopsAtOnce(after: Key -> seq<Row>, limit: nat, untilEmpty: bool, start: Key, n: nat)
    requires 0 < limit && (after(start) == [] || (!untilEmpty && |after(start)| <= limit))
    ensures Stops(after, limit, untilEmpty, start, n)
  {}

  lemma {:induction false} StopsFrom(after: Key -> seq<Row>, list: seq<Row>, prefix: Key, limit: nat, untilEmpty: bool,
                                     start: Key, pos: nat, n: nat)
    requires Continues(after, list, prefix) && 0 < limit && pos <= |list|
    requires after(start) == list[pos..] && |list| - pos <= n
    requires !Restarts(list, prefix, limit, pos, untilEmpty)
    ensures Stops(after, limit, untilEmpty, start, n)
    decreases n
  {
    if pos < |list| && (untilEmpty || limit < |list| - pos) {
      var end := PageEnd(list, limit, pos);
      LastOfPage(list, limit, pos);
      NoRestart(list, prefix, limit, pos, untilEmpty);
      assert after(list[end - 1].name) == list[end..];
      StopsFrom(after, list, prefix, limit, untilEmpty, list[end - 1].name, end, n - 1);
      StopsOneEarlier(after, limit, untilEmpty, start, n);
    } else {
      StopsAtOnce(after, limit, untilEmpty, start, n);
    }
  }

  lemma RestartStep(list: seq<Row>, prefix: Key, limit: nat, pos: nat, untilEmpty: bool)
    requires 0 < limit && Restarts(list, prefix, limit, pos, untilEmpty)
    ensures var end := PageEnd(list, limit, pos);
            pos < end <= |list| && (untilEmpty || limit < |list| - pos)
            && (list[end - 1].name == prefix || Restarts(list, prefix, limit, end, untilEmpty))
  {}

  lemma {:induction false} NeverStops(after: Key -> seq<Row>, list: seq<Row>, prefix: Key, limit: nat, untilEmpty: bool,
                                      start: Key, pos: nat, n: nat)
    requires Continues(after, list, prefix) && 0 < limit && pos <= |list|
    requires after(start) == list[pos..]
    requires Restarts(list, prefix, limit, pos, untilEmpty) && Restarts(list, prefix, limit, 0, untilEmpty)
    ensures !Stops(after, limit, untilEmpty, start, n)
    decreases n
  {
    RestartStep(list, prefix, limit, pos, untilEmpty);
    if 0 < n {
      LastOfPage(list, limit, pos);
      var end := PageEnd(list, limit, pos);
      if list[end - 1].name == prefix {
        WholeSlice(list);
        NeverStops(after, list, prefix, limit, untilEmpty, list[end - 1].name, 0, n - 1);
      } else {
        NeverStops(after, list, prefix, limit, untilEmpty, list[end - 1].name, end, n - 1);
      }
    }
  }

  ghost predicate WalkEnds(after: Key -> seq<Row>, limit: nat, untilEmpty: bool, start: Key)
    requires 0 < limit
  {
    exists n: nat :: Stops(after, limit, untilEmpty, start, n)
  }

  /** A walk comes to an end exactly when no page it continues ends with the key equal to the prefix. */
  lemma WalkEndsIff(t: seq<Row>, prefix: Key, limit: nat, rev: int, untilEmpty: bool, start: Key)
    requires WellFormed(t) && EndsWithSlash(prefix) && 0 < rev && 0 < limit
    requires start == [] || start == prefix
    ensures WalkEnds(AfterKey(t, prefix, rev), limit, untilEmpty, start)
            <==> !Restarts(LiveList(t, prefix, rev), prefix, limit, 0, untilEmpty)
  {
    RestFromTheStart(t, prefix, rev, start);
    LogContinues(t, prefix, rev);
    WalkOfListEndsIff(AfterKey(t, prefix, rev), LiveList(t, prefix, rev), prefix, limit, untilEmpty, start);
  }

  /** With "/a/" and "/a/b" live, pages of one key come back to the start for ever. */
  lemma WalkCanRestart() returns (t: seq<Row>, prefix: Key)
    ensures WellFormed(t) && EndsWithSlash(prefix) && MaxId(t) == 2
    ensures forall untilEmpty :: !WalkEnds(AfterKey(t, prefix, 2), 1, untilEmpty, prefix)
  {
    prefix := [SLASH, 97, SLASH];
    var own := Row(1, prefix, true, false, 0, 0, 0, [], []);
    var under := Row(2, prefix + [98], true, false, 0, 0, 0, [], []);
    t := [own, under];
    BothListed(t, prefix);
    forall untilEmpty ensures !WalkEnds(AfterKey(t, prefix, 2), 1, untilEmpty, prefix) {
      WalkEndsIff(t, prefix, 1, 2, untilEmpty, prefix);
      assert PageEnd(t, 1, 0) == 1 && t[0].name == prefix;
    }
  }

  lemma BothListed(t: seq<Row>, prefix: Key)
    requires WellFormed(t) && |t| == 2 && t[1].id <= 2 && t[0].name != t[1].name && !t[0].deleted && !t[1].deleted
    requires prefix <= t[0].name && prefix <= t[1].name
    ensures LiveList(t, prefix, 2) == t
  {
    SqlListShows(t, Selection(SqlLike, prefix + [PERCENT], 0, 2), false);
    forall r ensures r in LiveList(t, prefix, 2) <==> r in t {
      ListIsLiveView(t, prefix + [PERCENT], 2, r);
      if r in t {
        LikeItself(prefix, r.name[|prefix|..]);
        assert r.name == prefix + r.name[|prefix|..];
        LatestUnique(t, r.name, 2, Some(r));
      }
      LatestIsLatest(t, r.name, 2);
    }
    SameRowsSameSeq(LiveList(t, prefix, 2), t);
  }

  lemma WalkOfListEndsIff(after: Key -> seq<Row>, list: seq<Row>, prefix: Key, limit: nat, untilEmpty: bool, start: Key)
    requires Continues(after, list, prefix) && 0 < limit && after(start) == list
    ensures WalkEnds(after, limit, untilEmpty, start) <==> !Restarts(list, prefix, limit, 0, untilEmpty)
  {
    assert list[0..] == list;
    if Restarts(list, prefix, limit, 0, untilEmpty) {
      forall n: nat ensures !Stops(after, limit, untilEmpty, start, n) {
        NeverStops(after, list, prefix, limit, untilEmpty, start, 0, n);
      }
    } else {
      StopsFrom(after, list, prefix, limit, untilEmpty, start, 0, |list|);
      var n: nat := |list|;
      assert Stops(after, limit, untilEmpty, start, n);
    }
  }

  /* Later looks at the log. */

  lemma {:induction false} SlashedMatchesHaveASlash(prefix: Key, name: Key)
    requires EndsWithSlash(prefix) && Like(prefix + [PERCENT], name)
    ensures SLASH in name
    decreases |prefix|, |name|
  {
    var rest := prefix[1..];
    assert (prefix + [PERCENT])[1..] == rest + [PERCENT];
    if prefix[0] == PERCENT {
      if Like(rest + [PERCENT], name) {
        SlashedMatchesHaveASlash(rest, name);
      } else {
        SlashedMatchesHaveASlash(prefix, name[1..]);
        assert name == [name[0]] + name[1..];
      }
    } else if rest != [] {
      SlashedMatchesHaveASlash(rest, name[1..]);
      assert name == [name[0]] + name[1..];
    }
  }

  /**
   What can happen to the log between two looks at it while a list at `rev` is walked: rows are appended beyond that
   revision, a missing revision is filled, or compaction runs at or below it. (Above it the walk gets ErrCompacted.)
   */
  ghost predicate LogStep(t: seq<Row>, t': seq<Row>, rev: int) {
    || (WellFormed(t') && (forall x :: x in t ==> x in t') && forall x :: x in t' && x !in t ==> rev < x.id)
    || (exists id: nat :: Compaction.CanFill(t, id) && t' == InsertRow(t, Filler(id)))
    || (exists r :: r <= rev && t' == Compaction.Compact(t, r))
  }

  /** A key that is live at the revision has the same newest row there before and after. */
  lemma StepKeepsLiveRow(t: seq<Row>, t': seq<Row>, rev: int, r: Row)
    requires WellFormed(t) && Compaction.Chained(t) && LogStep(t, t', rev) && !r.deleted && r.name != COMPACT_KEY
    ensures WellFormed(t') && (Latest(t', r.name, rev) == Some(r) <==> Latest(t, r.name, rev) == Some(r))
  {
    LatestIsLatest(t, r.name, rev);
    if WellFormed(t') && (forall x :: x in t ==> x in t') && forall x :: x in t' && x !in t ==> rev < x.id {
      LatestUnique(t', r.name, rev, Latest(t, r.name, rev));
    } else if id: nat :| Compaction.CanFill(t, id) && t' == InsertRow(t, Filler(id)) {
      InsertRowKeeps(t, Filler(id));
      if r.name == FillKey(id) {
        LatestIsLatest(t', r.name, rev);
      } else {
        LatestAfterInsert(t, t', Filler(id), r.name, rev);
      }
    } else {
      var c :| c <= rev && t' == Compaction.Compact(t, c);
      Compaction.CompactKeeps(t, c);
      Compaction.LatestAfterCompact(t, c, r.name, rev);
    }
  }

  /** No step changes a list under a prefix at the revision. */
  lemma StepKeepsList(t: seq<Row>, t': seq<Row>, prefix: Key, rev: int)
    requires WellFormed(t) && Compaction.Chained(t) && EndsWithSlash(prefix) && LogStep(t, t', rev)
    ensures WellFormed(t') && LiveList(t', prefix, rev) == LiveList(t, prefix, rev)
  {
    StepKeepsLiveRow(t, t', rev, Row(0, [], true, false, 0, 0, 0, [], []));
    forall r ensures r in LiveList(t', prefix, rev) <==> r in LiveList(t, prefix, rev) {
      ListIsLiveView(t, prefix + [PERCENT], rev, r);
      ListIsLiveView(t', prefix + [PERCENT], rev, r);
      if Like(prefix + [PERCENT], r.name) && !r.deleted {
        SlashedMatchesHaveASlash(prefix, r.name);
        StepKeepsLiveRow(t, t', rev, r);
      }
    }
    SqlListShows(t, Selection(SqlLike, prefix + [PERCENT], 0, rev), false);
    SqlListShows(t', Selection(SqlLike, prefix + [PERCENT], 0, rev), false);
    SameRowsSameSeq(LiveList(t', prefix, rev), LiveList(t, prefix, rev));
  }

  predicate NotAfter(i: nat, j: nat) {
    i <= j
  }

  ghost predicate Evolves(tables: nat -> seq<Row>, base: nat, rev: int) {
    forall i: nat {:trigger NotAfter(base, i)} :: NotAfter(base, i) ==>
      WellFormed(tables(i)) && Compaction.Chained(tables(i)) && LogStep(tables(i), tables(i + 1), rev)
  }

  /** All tables from some look on are in order and have the same list at the revision. */
  ghost predicate Steady(tables: nat -> seq<Row>, base: nat, prefix: Key, rev: int) {
    forall j: nat {:trigger NotAfter(base, j)} :: NotAfter(base, j) ==>
      WellFormed(tables(j)) && LiveList(tables(j), prefix, rev) == LiveList(tables(base), prefix, rev)
  }

  lemma LooksAlike(tables: nat -> seq<Row>, base: nat, prefix: Key, rev: int, j: nat)
    requires Steady(tables, base, prefix, rev) && base <= j
    ensures WellFormed(tables(j)) && LiveList(tables(j), prefix, rev) == LiveList(tables(base), prefix, rev)
  {
    assert NotAfter(base, j);
  }

  lemma NextLooksAlike(tables: nat -> seq<Row>, base: nat, prefix: Key, rev: int, i: nat)
    requires Evolves(tables, base, rev) && EndsWithSlash(prefix) && base <= i
    ensures WellFormed(tables(i)) && LiveList(tables(i + 1), prefix, rev) == LiveList(tables(i), prefix, rev)
  {
    assert NotAfter(base, i);
    StepKeepsList(tables(i), tables(i + 1), prefix, rev);
  }

  lemma {:induction false} EvolvedLooksAlike(tables: nat -> seq<Row>, base: nat, prefix: Key, rev: int, j: nat)
    requires Evolves(tables, base, rev) && EndsWithSlash(prefix) && base <= j
    ensures WellFormed(tables(j)) && LiveList(tables(j), prefix, rev) == LiveList(tables(base), prefix, rev)
    decreases j
  {
    NextLooksAlike(tables, base, prefix, rev, j);
    if base < j {
      EvolvedLooksAlike(tables, base, prefix, rev, j - 1);
      NextLooksAlike(tables, base, prefix, rev, j - 1);
    }
  }

  /** So a log to which nothing else happens is steady. */
  lemma EvolutionIsSteady(tables: nat -> seq<Row>, base: nat, prefix: Key, rev: int)
    requires Evolves(tables, base, rev) && EndsWithSlash(prefix)
    ensures Steady(tables, base, prefix, rev)
  {
    forall j: nat | NotAfter(base, j)
      ensures WellFormed(tables(j)) && LiveList(tables(j), prefix, rev) == LiveList(tables(base), prefix, rev)
    {
      EvolvedLooksAlike(tables, base, prefix, rev, j);
    }
  }

  /* The range handler. */

  /** Byte arithmetic wraps around. */
  function Plus(b: Byte, d: int): Byte {
    (b as int + d) % 256
  }

  /** The range end etcd clients send for "everything under this prefix": the prefix with its last byte incremented. */
  function RangeEndOf(prefix: Key): Key
    requires prefix != []
  {
    prefix[..|prefix| - 1] + [Plus(prefix[|prefix| - 1], 1)]
  }

  function RecoveredPrefix(rangeEnd: Key): Key
    requires rangeEnd != []
  {
    var prefix := rangeEnd[..|rangeEnd| - 1] + [Plus(rangeEnd[|rangeEnd| - 1], -1)];
    if EndsWithSlash(prefix) then prefix else prefix + [SLASH]
  }

  /** The interval up to the range end holds exactly the keys under the prefix. */
  lemma RangeEndIsTight(prefix: Key, k: Key)
    requires prefix != [] && prefix[|prefix| - 1] < 255
    ensures !LessBytes(k, prefix) && LessBytes(k, RangeEndOf(prefix)) <==> prefix <= k
  {
    PrefixInterval(prefix, k);
  }

  /** What a client's prefix is taken for. */
  function Slashed(prefix: Key): Key {
    if EndsWithSlash(prefix) then prefix else prefix + [SLASH]
  }

  /** The handler gets back the prefix the client meant, with a slash behind it if it had none. */
  lemma RangeEndRoundTrip(prefix: Key)
    requires prefix != []
    ensures RecoveredPrefix(RangeEndOf(prefix)) == Slashed(prefix)
    ensures RecoveredPrefix(RangeEndOf(prefix)) == prefix <==> EndsWithSlash(prefix)
  {
    var end := RangeEndOf(prefix);
    assert Plus(Plus(prefix[|prefix| - 1], 1), -1) == prefix[|prefix| - 1];
    assert end[..|end| - 1] == prefix[..|prefix| - 1];
    assert prefix == prefix[..|prefix| - 1] + [prefix[|prefix| - 1]];
  }

  /** The slice is decremented where it lies, so the request keeps the prefix where its range end was. */
  method RecoverPrefix(rangeEnd: array<Byte>) returns (prefix: Key)
    requires 0 < rangeEnd.Length
    modifies rangeEnd
    ensures prefix == RecoveredPrefix(old(rangeEnd[..]))
    ensures rangeEnd[..] <= prefix
  {
    ghost var end := rangeEnd[..];
    rangeEnd[rangeEnd.Length - 1] := Plus(rangeEnd[rangeEnd.Length - 1], -1);
    prefix := rangeEnd[..];
    assert prefix == end[..|end| - 1] + [Plus(end[|end| - 1], -1)];
    if !EndsWithSlash(prefix) {
      prefix := prefix + [SLASH];
    }
  }

  predicate NoTrailingNul(k: Key) {
    k == [] || k[|k| - 1] != 0
  }

  /** strings.TrimRight(key, NUL). */
  function TrimNuls(key: Key): (trimmed: Key)
    ensures trimmed <= key && NoTrailingNul(trimmed)
    ensures forall i :: |trimmed| <= i < |key| ==> key[i] == 0
  {
    if key != [] && key[|key| - 1] == 0 then TrimNuls(key[..|key| - 1]) else key
  }

  datatype RangeResponse = RangeResponse(revision: int, kvs: seq<Row>, more: bool, count: int)

  /** The first `limit` of the remaining rows, and whether there are more; the count includes the one in excess. */
  predicate IsPage(resp: RangeResponse, rest: seq<Row>, limit: int) {
    && resp.kvs == Limit(rest, limit)
    && (resp.more <==> 0 < limit < |rest|)
    && resp.count == |resp.kvs| + if resp.more then 1 else 0
  }

  /** Of a list cut short the count is one more than shown, whatever is behind; otherwise it is what is shown. */
  predicate Counts(resp: RangeResponse, limit: int) {
    if resp.more then |resp.kvs| == limit && resp.count == limit + 1 else resp.count == |resp.kvs|
  }

  /* List with its relist. */

  /** The revision List reports: the one asked for, that of the table with rows, or the one it relisted at. */
  function ListRevisionOf(tables: nat -> seq<Row>, at: nat, revision: int, calls: nat): int {
    if revision != 0 then revision else MaxId(tables(if calls == 1 then at else at + 1))
  }

  /**
   What List answers, where `tables` is what its successive calls to the log find: one revision and the list at exactly
   that revision, in the last table looked at. Without a relist a list of the current revision ignores the start key.
   */
  ghost predicate Answers(tables: nat -> seq<Row>, at: nat, prefix: Key, startKey: Key, limit: int, revision: int,
                          rev: int, kvs: seq<Row>, calls: nat)
  {
    && (if revision != 0 then calls == 1 else calls == 1 || calls == 3)
    && rev == ListRevisionOf(tables, at, revision, calls)
    && (revision == 0 ==> 0 < rev)
    && kvs == LogList(tables(at + calls - 1), prefix, if revision == 0 && calls == 1 then [] else startKey, limit, rev)
  }

  /** LogStructured.List: with rows in the log it calls itself at most once. */
  method List(tables: nat -> seq<Row>, at: nat, prefix: Key, startKey: Key, limit: int, revision: int)
    returns (rev: int, kvs: seq<Row>, calls: nat)
    requires InOrder(tables)
    requires 0 <= revision && (revision == 0 ==> 0 < MaxId(tables(at + 1)))
    ensures Answers(tables, at, prefix, startKey, limit, revision, rev, kvs, calls)
    decreases if revision == 0 then 1 else 0
  {
    kvs := LogList(tables(at), prefix, startKey, limit, revision);
    calls := 1;
    rev := if kvs == [] then 0 else MaxId(tables(at));
    if revision == 0 && |kvs| == 0 {
      var currentRev := MaxId(tables(at + 1));
      rev, kvs, calls := List(tables, at + 2, prefix, startKey, limit, currentRev);
      Relisted(tables, at, prefix, startKey, limit, rev, kvs, calls);
      calls := calls + 2;
    } else if revision != 0 {
      rev := revision;
    } else {
      FoundAtOnce(tables, at, prefix, startKey, limit);
    }
  }

  lemma Relisted(tables: nat -> seq<Row>, at: nat, prefix: Key, startKey: Key, limit: int, rev: int, kvs: seq<Row>,
                 calls: nat)
    requires InOrder(tables) && 0 < MaxId(tables(at + 1))
    requires Answers(tables, at + 2, prefix, startKey, limit, MaxId(tables(at + 1)), rev, kvs, calls)
    ensures Answers(tables, at, prefix, startKey, limit, 0, rev, kvs, calls + 2)
  {}

  lemma FoundAtOnce(tables: nat -> seq<Row>, at: nat, prefix: Key, startKey: Key, limit: int)
    requires InOrder(tables) && LogList(tables(at), prefix, startKey, limit, 0) != []
    ensures Answers(tables, at, prefix, startKey, limit, 0, MaxId(tables(at)),
                    LogList(tables(at), prefix, startKey, limit, 0), 1)
  {
    NonEmptyListHasRows(tables(at), prefix, startKey, limit);
  }

  ghost predicate InOrder(tables: nat -> seq<Row>) {
    forall i: nat :: WellFormed(tables(i))
  }

  lemma NonEmptyListHasRows(t: seq<Row>, prefix: Key, startKey: Key, limit: int)
    requires WellFormed(t) && LogList(t, prefix, startKey, limit, 0) != []
    ensures 0 < MaxId(t)
    ensures LogList(t, prefix, startKey, limit, 0) == LogList(t, prefix, [], limit, MaxId(t))
  {
    if t != [] { assert t[|t| - 1] in t; }
    assert t == [] ==> LogList(t, prefix, startKey, limit, 0) == [];
  }

  /** A page of what List answers for: `calls` is how often it looked at the log. */
  ghost predicate IsServed(resp: RangeResponse, tables: nat -> seq<Row>, at: nat, prefix: Key, start: Key, limit: int,
                           revision: int, calls: nat)
  {
    exists rest ::
      Answers(tables, at, prefix, start, 0, revision, resp.revision, rest, calls) && IsPage(resp, rest, limit)
  }

  lemma AnswersLimited(tables: nat -> seq<Row>, at: nat, prefix: Key, start: Key, limit: int, revision: int, rev: int,
                       kvs: seq<Row>, calls: nat) returns (rest: seq<Row>)
    requires Answers(tables, at, prefix, start, limit, revision, rev, kvs, calls)
    ensures Answers(tables, at, prefix, start, 0, revision, rev, rest, calls) && kvs == Limit(rest, limit)
  {
    var from := if revision == 0 && calls == 1 then [] else start;
    rest := LogList(tables(at + calls - 1), prefix, from, 0, rev);
    LimitLater(tables(at + calls - 1), prefix, from, limit, rev);
  }

  /** One row more than asked for is fetched to see whether there are more. */
  method ServePage(tables: nat -> seq<Row>, at: nat, prefix: Key, start: Key, limit: int, revision: int)
    returns (resp: RangeResponse, ghost calls: nat)
    requires InOrder(tables) && 0 <= revision && (revision == 0 ==> 0 < MaxId(tables(at + 1)))
    ensures IsServed(resp, tables, at, prefix, start, limit, revision, calls)
    ensures Counts(resp, limit)
  {
    var fetched := limit;
    if fetched > 0 {
      fetched := fetched + 1;
    }
    var rev, kvs, n := List(tables, at, prefix, start, fetched, revision);
    calls := n;
    ghost var rest := AnswersLimited(tables, at, prefix, start, fetched, revision, rev, kvs, n);
    resp := RangeResponse(rev, kvs, false, |kvs|);
    if fetched > 0 && resp.count > limit {
      resp := resp.(more := true, kvs := kvs[0..fetched - 1]);
    }
  }

  /** A range request as it arrives; the range end is the request's own buffer. */
  datatype RangeRequest = RangeRequest(key: Key, rangeEnd: array<Byte>, limit: int, revision: int, countOnly: bool)

  /**
   LimitedServer.list: prefix from the range end, start from the key, then the page, or what the backend's Count
   answers for the prefix, as revision and count.
   */
  method ServeRange(tables: nat -> seq<Row>, at: nat, count: Key -> (int, int), request: RangeRequest)
    returns (resp: Option<RangeResponse>, ghost calls: nat)
    requires InOrder(tables) && 0 <= request.revision && (request.revision == 0 ==> 0 < MaxId(tables(at + 1)))
    modifies request.rangeEnd
    ensures request.rangeEnd.Length == 0 ==> resp == None
    ensures 0 < request.rangeEnd.Length ==>
              var prefix := RecoveredPrefix(old(request.rangeEnd[..]));
              && resp.Some?
              && if request.countOnly then resp.value == RangeResponse(count(prefix).0, [], false, count(prefix).1)
                 else IsServed(resp.value, tables, at, prefix, TrimNuls(request.key), request.limit, request.revision,
                               calls) && Counts(resp.value, request.limit)
  {
    calls := 0;
    if request.rangeEnd.Length == 0 {
      return None, calls;
    }
    var prefix := RecoverPrefix(request.rangeEnd);
    var start := TrimNuls(request.key);
    if request.countOnly {
      var (rev, n) := count(prefix);
      return Some(RangeResponse(rev, [], false, n)), calls;
    }
    var page;
    page, calls := ServePage(tables, at, prefix, start, request.limit, request.revision);
    resp := Some(page);
  }

  /** The last names of the pages that are continued do not end in NUL, which the server would trim. */
  predicate TrimsWell(list: seq<Row>, limit: nat, pos: nat)
    requires 0 < limit
    decreases |list| - pos
  {
    pos < |list| && PageEnd(list, limit, pos) < |list| ==>
      NoTrailingNul(list[PageEnd(list, limit, pos) - 1].name) && TrimsWell(list, limit, PageEnd(list, limit, pos))
  }

  lemma ContinuationTrims(name: Key)
    requires NoTrailingNul(name)
    ensures TrimNuls(name + [0]) == name
  {
    assert (name + [0])[..|name|] == name;
  }

  /** What an etcd client sends for a prefix, and what it gets. */
  method RangeUnderPrefix(tables: nat -> seq<Row>, at: nat, prefix: Key, limit: nat, revision: int, key: Key)
    returns (resp: RangeResponse, ghost calls: nat)
    requires InOrder(tables) && prefix != [] && 0 <= revision && (revision == 0 ==> 0 < MaxId(tables(at + 1)))
    ensures IsServed(resp, tables, at, Slashed(prefix), TrimNuls(key), limit, revision, calls)
  {
    RangeEndRoundTrip(prefix);
    var rangeEnd := new Byte[|prefix|](i requires 0 <= i < |prefix| => RangeEndOf(prefix)[i]);
    assert rangeEnd[..] == RangeEndOf(prefix);
    var served;
    served, calls := ServeRange(tables, at, _ => (0, 0), RangeRequest(key, rangeEnd, limit, revision, false));
    resp := served.value;
  }

  /** The part of a list that a start key leaves: without one, or with the prefix for one, all of it. */
  predicate ComesAfter(t: seq<Row>, prefix: Key, start: Key, rev: int, r: Row) {
    start == [] || start == prefix || (Latest(t, start, rev).Some? && Latest(t, start, rev).value.id < r.id)
  }

  /** The list from a start key on: live rows that match, and under a slash are newer than the start key's own row. */
  lemma LogListShows(t: seq<Row>, prefix: Key, start: Key, rev: int)
    requires WellFormed(t) && 0 < rev
    ensures Ascending(LogList(t, prefix, start, 0, rev))
    ensures forall r {:trigger r in LogList(t, prefix, start, 0, rev)} ::
              r in LogList(t, prefix, start, 0, rev) <==>
              && Like(PatternOf(prefix), r.name) && Latest(t, r.name, rev) == Some(r) && !r.deleted
              && (EndsWithSlash(prefix) ==> ComesAfter(t, prefix, start, rev, r))
  {
    var whole := ListRevision(t, PatternOf(prefix), rev, false);
    SqlListShows(t, Selection(SqlLike, PatternOf(prefix), 0, rev), false);
    forall r: Row ensures r in whole <==>
      Like(PatternOf(prefix), r.name) && Latest(t, r.name, rev) == Some(r) && !r.deleted
    {
      ListIsLiveView(t, PatternOf(prefix), rev, r);
    }
    if EndsWithSlash(prefix) && start != [] && start != prefix && Latest(t, start, rev).Some? {
      AfterKeyIsSuffix(t, PatternOf(prefix), rev, start, false);
      FilterAscending(whole, (r: Row) => Latest(t, start, rev).value.id < r.id);
    }
  }

  /** Under a prefix without wildcards: the live keys that start with it. */
  ghost predicate ListsUnder(kvs: seq<Row>, t: seq<Row>, prefix: Key, start: Key, rev: int) {
    Ascending(kvs)
    && forall r {:trigger r in kvs} :: r in kvs <==>
         && prefix <= r.name && Latest(t, r.name, rev) == Some(r) && !r.deleted && ComesAfter(t, prefix, start, rev, r)
  }

  lemma ServedUnder(tables: nat -> seq<Row>, at: nat, prefix: Key, start: Key, revision: int, calls: nat,
                    resp: RangeResponse)
    requires InOrder(tables) && EndsWithSlash(prefix) && Plain(prefix) && 0 <= revision
    requires IsServed(resp, tables, at, prefix, start, 0, revision, calls)
    ensures 0 < calls && resp.revision == ListRevisionOf(tables, at, revision, calls)
    ensures ListsUnder(resp.kvs, tables(at + calls - 1), prefix, if revision == 0 && calls == 1 then [] else start,
                       resp.revision)
    ensures !resp.more && resp.count == |resp.kvs|
  {
    var t, from := tables(at + calls - 1), if revision == 0 && calls == 1 then [] else start;
    LogListShows(t, prefix, from, resp.revision);
    forall name: Key ensures Like(prefix + [PERCENT], name) <==> prefix <= name { LikePrefix(prefix, name); }
  }

  /**
   A request for a prefix without wildcards and without a slash at its end, and without a limit, lists keys that start
   with the prefix and a slash. Found at once at the current revision those are all the live ones. At a given revision,
   and after a relist, the request's key counts as a start key although it is not the prefix listed: without a row of
   its own it leaves nothing, and with one only the keys written since.
   */
  method RangeUnderKey(tables: nat -> seq<Row>, at: nat, prefix: Key, revision: int)
    returns (resp: RangeResponse, ghost calls: nat)
    requires InOrder(tables) && prefix != [] && Plain(prefix) && !EndsWithSlash(prefix)
    requires 0 <= revision && (revision == 0 ==> 0 < MaxId(tables(at + 1)))
    ensures 0 < calls && resp.revision == ListRevisionOf(tables, at, revision, calls) && Ascending(resp.kvs)
    ensures (revision == 0 && calls == 1) || TrimNuls(prefix) == [] ==>
              var t := tables(at + calls - 1);
              forall r :: r in resp.kvs <==>
                prefix + [SLASH] <= r.name && Latest(t, r.name, resp.revision) == Some(r) && !r.deleted
    ensures (revision != 0 || calls != 1) && TrimNuls(prefix) != [] ==>
              var t := tables(at + calls - 1);
              match Latest(t, TrimNuls(prefix), resp.revision)
              case None => resp.kvs == []
              case Some(own) =>
                forall r :: r in resp.kvs <==>
                  && prefix + [SLASH] <= r.name && Latest(t, r.name, resp.revision) == Some(r) && !r.deleted
                  && own.id < r.id
    ensures !resp.more && resp.count == |resp.kvs|
  {
    assert Slashed(prefix) == prefix + [SLASH] && EndsWithSlash(prefix + [SLASH]) && Plain(prefix + [SLASH]);
    resp, calls := RangeUnderPrefix(tables, at, prefix, 0, revision, prefix);
    ServedUnder(tables, at, prefix + [SLASH], TrimNuls(prefix), revision, calls, resp);
    assert |resp.kvs| > 0 ==> resp.kvs[0] in resp.kvs;
  }

  /** The last key of a page with a NUL behind it. */
  function Continuation(kvs: seq<Row>): Key {
    if kvs == [] then [] else kvs[|kvs| - 1].name + [0]
  }

  /** Where a walk over a list has come to; its continuation key names the entry before the rest. */
  ghost predicate Walking(list: seq<Row>, prefix: Key, limit: nat, pos: nat, key: Key, more: bool, all: seq<Row>)
    requires 0 < limit
  {
    && pos <= |list| && all == list[..pos] && (more <==> pos < |list|)
    && (more ==> 0 < pos && TrimNuls(key) == list[pos - 1].name != prefix)
    && !Restarts(list, prefix, limit, pos, false) && TrimsWell(list, limit, pos)
  }

  /** One page further. */
  lemma WalkGoesOn(list: seq<Row>, prefix: Key, limit: nat, pos: nat, all: seq<Row>, resp: RangeResponse)
    requires 0 < limit && pos <= |list| && all == list[..pos] && IsPage(resp, list[pos..], limit)
    requires !Restarts(list, prefix, limit, pos, false) && TrimsWell(list, limit, pos)
    ensures Walking(list, prefix, limit, pos + |resp.kvs|, Continuation(resp.kvs), resp.more, all + resp.kvs)
    ensures resp.more ==> 0 < |resp.kvs| && pos + |resp.kvs| <= |list|
  {
    if pos < |list| {
      var end := PageEnd(list, limit, pos);
      LastOfPage(list, limit, pos);
      NoRestart(list, prefix, limit, pos, false);
      SlicesJoin(list, pos, end);
      if end < |list| { ContinuationTrims(list[end - 1].name); }
    }
  }

  lemma WalkEnded(list: seq<Row>, prefix: Key, limit: nat, pos: nat, key: Key, all: seq<Row>)
    requires 0 < limit && Walking(list, prefix, limit, pos, key, false, all)
    ensures all == list
  {}

  /** In any table with the same list, the continuation key leads to the rest of it. */
  lemma ServedLater(tables: nat -> seq<Row>, at: nat, list: seq<Row>, prefix: Key, limit: nat, rev: int, pos: nat,
                    key: Key, all: seq<Row>, calls: nat, resp: RangeResponse)
    requires WellFormed(tables(at)) && LiveList(tables(at), prefix, rev) == list && EndsWithSlash(prefix)
    requires 0 < rev && 0 < limit && Walking(list, prefix, limit, pos, key, true, all)
    requires IsServed(resp, tables, at, prefix, TrimNuls(key), limit, rev, calls)
    ensures resp.revision == rev && IsPage(resp, list[pos..], limit)
  {
    RestAfterEntry(tables(at), prefix, rev, pos - 1);
  }

  /** A continued request at the first answer's revision, in a later table. */
  method RequestPage(tables: nat -> seq<Row>, ghost base: nat, at: nat, prefix: Key, limit: nat, rev: int, key: Key,
                     ghost list: seq<Row>, ghost pos: nat, ghost all: seq<Row>)
    returns (resp: RangeResponse, next: Key)
    requires InOrder(tables) && base <= at && Steady(tables, base, prefix, rev)
    requires 0 < rev && EndsWithSlash(prefix) && 0 < limit && list == LiveList(tables(base), prefix, rev)
    requires Walking(list, prefix, limit, pos, key, true, all)
    ensures Walking(list, prefix, limit, pos + |resp.kvs|, next, resp.more, all + resp.kvs)
    ensures resp.more ==> 0 < |resp.kvs| && pos + |resp.kvs| <= |list|
  {
    ghost var calls;
    resp, calls := RangeUnderPrefix(tables, at, prefix, limit, rev, key);
    next := Continuation(resp.kvs);
    LooksAlike(tables, base, prefix, rev, at);
    ServedLater(tables, at, list, prefix, limit, rev, pos, key, all, calls, resp);
    WalkGoesOn(list, prefix, limit, pos, all, resp);
  }

  /** The revision a list is answered for: the one asked for, or the newest in the table. */
  function AskedAt(tables: nat -> seq<Row>, i: nat, revision: int): int {
    if revision != 0 then revision else MaxId(tables(i))
  }

  /**
   What a walk at a revision needs: a list that stays as it is, no page that ends with the key equal to the prefix, and
   none that ends with a name the server would trim.
   */
  ghost predicate CanWalk(tables: nat -> seq<Row>, base: nat, prefix: Key, limit: nat, rev: int)
    requires 0 < limit
  {
    && Steady(tables, base, prefix, rev)
    && !Restarts(LiveList(tables(base), prefix, rev), prefix, limit, 0, false)
    && TrimsWell(LiveList(tables(base), prefix, rev), limit, 0)
  }

  /** From the first page on: at the revision asked for, or at whichever of the two the first answer can report. */
  ghost predicate Walkable(tables: nat -> seq<Row>, prefix: Key, limit: nat, revision: int)
    requires 0 < limit
  {
    && InOrder(tables) && EndsWithSlash(prefix) && 0 <= revision && (revision == 0 ==> 0 < MaxId(tables(1)))
    && CanWalk(tables, 0, prefix, limit, AskedAt(tables, 0, revision))
    && (revision == 0 ==> CanWalk(tables, 1, prefix, limit, AskedAt(tables, 1, revision)))
  }

  lemma FirstServed(tables: nat -> seq<Row>, prefix: Key, limit: nat, revision: int, calls: nat, resp: RangeResponse)
    returns (base: nat)
    requires 0 < limit && Walkable(tables, prefix, limit, revision)
    requires IsServed(resp, tables, 0, prefix, TrimNuls(prefix), limit, revision, calls)
    ensures base <= 1 && (revision != 0 ==> base == 0)
    ensures resp.revision == AskedAt(tables, base, revision) && 0 < resp.revision
    ensures CanWalk(tables, base, prefix, limit, resp.revision)
    ensures IsPage(resp, LiveList(tables(base), prefix, resp.revision), limit)
  {
    assert TrimNuls(prefix) == prefix && (calls == 1 || calls == 3);
    base := if calls == 1 then 0 else 1;
    LooksAlike(tables, base, prefix, resp.revision, calls - 1);
    RestFromTheStart(tables(calls - 1), prefix, resp.revision, if revision == 0 && calls == 1 then [] else prefix);
  }

  lemma FirstWalk(tables: nat -> seq<Row>, prefix: Key, limit: nat, revision: int, calls: nat, resp: RangeResponse)
    returns (base: nat)
    requires 0 < limit && Walkable(tables, prefix, limit, revision)
    requires IsServed(resp, tables, 0, prefix, TrimNuls(prefix), limit, revision, calls)
    ensures base <= 1 && (revision != 0 ==> base == 0)
    ensures resp.revision == AskedAt(tables, base, revision) && 0 < resp.revision
    ensures Steady(tables, base, prefix, resp.revision)
    ensures Walking(LiveList(tables(base), prefix, resp.revision), prefix, limit, |resp.kvs|, Continuation(resp.kvs),
                    resp.more, resp.kvs)
  {
    base := FirstServed(tables, prefix, limit, revision, calls, resp);
    var list := LiveList(tables(base), prefix, resp.revision);
    WholeSlice(list);
    WalkGoesOn(list, prefix, limit, 0, [], resp);
    assert [] + resp.kvs == resp.kvs;
  }

  /** The first request names the prefix itself, at a given revision or at the current one. */
  method FirstPage(tables: nat -> seq<Row>, prefix: Key, limit: nat, revision: int)
    returns (resp: RangeResponse, next: Key, ghost base: nat)
    requires 0 < limit && Walkable(tables, prefix, limit, revision)
    ensures base <= 1 && (revision != 0 ==> base == 0)
    ensures resp.revision == AskedAt(tables, base, revision) && 0 < resp.revision
    ensures Steady(tables, base, prefix, resp.revision)
    ensures Walking(LiveList(tables(base), prefix, resp.revision), prefix, limit, |resp.kvs|, next, resp.more, resp.kvs)
  {
    ghost var calls;
    resp, calls := RangeUnderPrefix(tables, 0, prefix, limit, revision, prefix);
    next := Continuation(resp.kvs);
    base := FirstWalk(tables, prefix, limit, revision, calls, resp);
  }

  /** The rest of the walk, from a continuation key on. */
  method FollowOn(tables: nat -> seq<Row>, ghost base: nat, call: nat, prefix: Key, limit: nat, rev: int,
                  ghost list: seq<Row>, first: seq<Row>, key: Key, more: bool)
    returns (all: seq<Row>)
    requires InOrder(tables) && base <= call && Steady(tables, base, prefix, rev)
    requires 0 < rev && EndsWithSlash(prefix) && 0 < limit && list == LiveList(tables(base), prefix, rev)
    requires Walking(list, prefix, limit, |first|, key, more, first)
    ensures all == list
    decreases |list| - |first|, more
  {
    if !more {
      WalkEnded(list, prefix, limit, |first|, key, first);
      return first;
    }
    var resp, next := RequestPage(tables, base, call, prefix, limit, rev, key, list, |first|, first);
    all := FollowOn(tables, base, call + 1, prefix, limit, rev, list, first + resp.kvs, next, resp.more);
  }

  /**
   A client that follows continuation keys until there is no more, while the log goes on: every live key that matches
   the prefix at the revision of the first answer, once, in order.
   */
  method FollowContinuations(tables: nat -> seq<Row>, prefix: Key, limit: nat, revision: int)
    returns (all: seq<Row>, rev: int, ghost base: nat)
    requires 0 < limit && Walkable(tables, prefix, limit, revision)
    ensures base <= 1 && rev == AskedAt(tables, base, revision) && (revision != 0 ==> base == 0)
    ensures all == LiveList(tables(base), prefix, rev)
  {
    var resp, key;
    resp, key, base := FirstPage(tables, prefix, limit, revision);
    rev := resp.revision;
    // a first request at revision 0 takes up to three looks at the log
    all := FollowOn(tables, base, 3, prefix, limit, rev, LiveList(tables(base), prefix, rev), resp.kvs, key, resp.more);
  }

  lemma SlicesJoin(list: seq<Row>, a: nat, b: nat)
    requires a <= b <= |list|
    ensures list[..a] + list[a..b] == list[..b]
  {}

  /* The loader behind leases. */

  function Leased(rows: seq<Row>): seq<Row> {
    Filter(rows, (r: Row) => 0 < r.lease)
  }

  lemma LeasedShows(list: seq<Row>)
    requires Ascending(list)
    ensures Ascending(Leased(list)) && forall r :: r in Leased(list) <==> r in list && 0 < r.lease
  {
    FilterAscending(list, (r: Row) => 0 < r.lease);
  }

  lemma LeasedConcat(a: seq<Row>, b: seq<Row>)
    ensures Leased(a + b) == Leased(a) + Leased(b)
  {
    FilterConcat(a, b, (r: Row) => 0 < r.lease);
  }

  /**
   The first half of ttlEvents: page through the live keys at the revision of the first page, whatever happens to the
   log beyond it (`tables` is what successive calls find), and send on those that carry a lease.
   */
  method LoadLeases(tables: nat -> seq<Row>, prefix: Key, pageSize: nat) returns (sent: seq<Row>)
    requires EndsWithSlash(prefix) && 0 < pageSize
    requires Steady(tables, 0, prefix, MaxId(tables(0)))
    requires !Restarts(LiveList(tables(0), prefix, MaxId(tables(0))), prefix, pageSize, 0, true)
    ensures sent == Leased(LiveList(tables(0), prefix, MaxId(tables(0))))
    ensures Ascending(sent)
    ensures forall r :: r in sent <==> r in LiveList(tables(0), prefix, MaxId(tables(0))) && 0 < r.lease
  {
    var t, rev := tables(0), MaxId(tables(0));
    LooksAlike(tables, 0, prefix, rev, 0);
    ghost var list := LiveList(t, prefix, rev);
    var events := LogList(t, prefix, [], pageSize, 0);
    var call := 1;
    ghost var done := 0;
    sent := [];
    assert list[0..] == list;
    while 0 < |events|
      invariant done <= |list| && sent == Leased(list[..done])
      invariant events == Limit(list[done..], pageSize)
      invariant !Restarts(list, prefix, pageSize, done, true)
      decreases |list| - done
    {
      sent := sent + Leased(events);
      var last := events[|events| - 1].name;
      LeasedPage(list, pageSize, done);
      LastOfPage(list, pageSize, done);
      LooksAlike(tables, 0, prefix, rev, call);
      RowsHaveRevisions(t, prefix);
      NextLoad(list, tables(call), prefix, pageSize, rev, done);
      events := LogList(tables(call), prefix, last, pageSize, rev);
      call, done := call + 1, PageEnd(list, pageSize, done);
    }
    assert list[..done] == list;
    SqlListShows(t, Selection(SqlLike, prefix + [PERCENT], 0, rev), false);
    LeasedShows(list);
  }

  lemma LeasedPage(list: seq<Row>, limit: nat, pos: nat)
    requires pos < |list| && 0 < limit
    ensures Leased(list[..PageEnd(list, limit, pos)]) == Leased(list[..pos]) + Leased(Limit(list[pos..], limit))
  {
    LastOfPage(list, limit, pos);
    SlicesJoin(list, pos, PageEnd(list, limit, pos));
    LeasedConcat(list[..pos], Limit(list[pos..], limit));
  }

  /** The loader's next page, found in a later table with the same list. */
  lemma NextLoad(list: seq<Row>, t: seq<Row>, prefix: Key, limit: nat, rev: int, pos: nat)
    requires WellFormed(t) && LiveList(t, prefix, rev) == list && 0 < rev && EndsWithSlash(prefix) && 0 < limit
    requires pos < |list| && !Restarts(list, prefix, limit, pos, true)
    ensures var end := PageEnd(list, limit, pos);
            && LogList(t, prefix, list[end - 1].name, limit, rev) == Limit(list[end..], limit)
            && !Restarts(list, prefix, limit, end, true)
  {
    var end := PageEnd(list, limit, pos);
    NoRestart(list, prefix, limit, pos, true);
    RestAfterEntry(t, prefix, rev, end - 1);
    LimitLater(t, prefix, list[end - 1].name, limit, rev);
  }

  lemma RowsHaveRevisions(t: seq<Row>, prefix: Key)
    requires WellFormed(t) && LiveList(t, prefix, MaxId(t)) != []
    ensures 0 < MaxId(t)
  {
    assert t != [];
    assert t[|t| - 1] in t;
  }
}
