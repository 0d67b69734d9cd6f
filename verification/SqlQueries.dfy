/**
 The SQL the store was written for: pattern matching, the three list queries (group by name, newest row per
 group, order by id) and the query behind watches, as functions of the table.
 */
module SqlQueries {
  import opened Tables

  const PERCENT: Byte := 37
  const UNDERSCORE: Byte := 95

  /** name LIKE pattern (section 8.5 of ISO/IEC 9075-2), without an escape character. */
  predicate Like(pattern: Key, name: Key)
    decreases |pattern|, |name|
  {
    if pattern == [] then name == []
    else if pattern[0] == PERCENT then
      Like(pattern[1..], name) || (name != [] && Like(pattern, name[1..]))
    else
      name != [] && (pattern[0] == UNDERSCORE || pattern[0] == name[0]) && Like(pattern[1..], name[1..])
  }

  predicate Plain(p: Key) {
    PERCENT !in p && UNDERSCORE !in p
  }

  lemma {:induction false} LikeAnything(name: Key)
    ensures Like([PERCENT], name)
    decreases |name|
  {
    assert [PERCENT][1..] == [];
    if name != [] { LikeAnything(name[1..]); }
  }

  /** p% matches exactly the names that start with p, when p has no wildcard of its own. */
  lemma {:induction false} LikePrefix(p: Key, name: Key)
    requires Plain(p)
    ensures Like(p + [PERCENT], name) <==> p <= name
    decreases |p|
  {
    if p == [] {
      assert p + [PERCENT] == [PERCENT];
      LikeAnything(name);
    } else {
      assert (p + [PERCENT])[1..] == p[1..] + [PERCENT];
      assert p[0] in p;
      if name != [] {
        LikePrefix(p[1..], name[1..]);
        assert p == [p[0]] + p[1..] && name == [name[0]] + name[1..];
      }
    }
  }

  lemma {:induction false} LikeExact(p: Key, name: Key)
    requires Plain(p)
    ensures Like(p, name) <==> name == p
    decreases |p|
  {
    if p != [] {
      assert p[0] in p;
      if name != [] {
        LikeExact(p[1..], name[1..]);
        assert p == [p[0]] + p[1..] && name == [name[0]] + name[1..];
      }
    }
  }

  /** Every pattern matches itself, and with a percent sign behind it everything that starts with it. */
  lemma {:induction false} LikeItself(p: Key, rest: Key)
    ensures Like(p + [PERCENT], p + rest)
    ensures Like(p, p)
    decreases |p|
  {
    if p == [] {
      assert p + [PERCENT] == [PERCENT] && p + rest == rest;
      LikeAnything(rest);
    } else {
      LikeItself(p[1..], rest);
      assert (p + [PERCENT])[1..] == p[1..] + [PERCENT] && (p + rest)[1..] == p[1..] + rest;
    }
  }

  /** A wildcard lets a stranger in: a name that p matches but is not, and that p% matches but does not start with p. */
  lemma {:induction false} Stranger(p: Key) returns (name: Key)
    requires !Plain(p)
    ensures Like(p, name) && name != p
    ensures Like(p + [PERCENT], name) && !(p <= name)
    decreases |p|
  {
    var rest := p[1..];
    assert p == [p[0]] + rest && (p + [PERCENT])[1..] == rest + [PERCENT];
    LikeItself(rest, []);
    assert rest + [] == rest;
    if p[0] == PERCENT {
      name := rest;
    } else if p[0] == UNDERSCORE {
      name := [SLASH] + rest;
      assert name[1..] == rest;
    } else {
      var tail := Stranger(rest);
      name := [p[0]] + tail;
      assert name[1..] == tail;
    }
  }

  /** One byte of a pattern stands for name[a..b]: "%" for any part, "_" for any byte, the rest for themselves. */
  predicate StandsFor(p: Byte, name: Key, a: int, b: int) {
    0 <= a <= b <= |name| && (p == PERCENT || (b == a + 1 && (p == UNDERSCORE || name[a] == p)))
  }

  /** The name is cut into as many parts as the pattern has bytes, and each byte stands for its part. */
  ghost predicate Cuts(pattern: Key, name: Key, cuts: seq<int>) {
    && |cuts| == |pattern| + 1 && cuts[0] == 0 && cuts[|pattern|] == |name|
    && forall i :: 0 <= i < |pattern| ==> StandsFor(pattern[i], name, cuts[i], cuts[i + 1])
  }

  function Shift(cuts: seq<int>, d: int): (shifted: seq<int>)
    ensures |shifted| == |cuts| && forall i :: 0 <= i < |cuts| ==> shifted[i] == cuts[i] + d
  {
    seq(|cuts|, i requires 0 <= i < |cuts| => cuts[i] + d)
  }

  /** "%" for nothing. */
  lemma CutsWithNothing(pattern: Key, name: Key, rest: seq<int>)
    requires pattern != [] && pattern[0] == PERCENT && Cuts(pattern[1..], name, rest)
    ensures Cuts(pattern, name, [0] + rest)
  {
    forall i | 1 <= i < |pattern| ensures StandsFor(pattern[i], name, rest[i - 1], rest[i]) {
      assert StandsFor(pattern[1..][i - 1], name, rest[i - 1], rest[i]);
    }
  }

  /** "%" for one byte more. */
  lemma CutsWithMore(pattern: Key, name: Key, rest: seq<int>)
    requires pattern != [] && pattern[0] == PERCENT && name != [] && Cuts(pattern, name[1..], rest)
    ensures Cuts(pattern, name, [0] + Shift(rest[1..], 1))
  {
    forall i | 0 <= i < |pattern|
      ensures StandsFor(pattern[i], name, rest[i] + 1, rest[i + 1] + 1)
      ensures i == 0 ==> StandsFor(pattern[i], name, 0, rest[i + 1] + 1)
    {
      assert StandsFor(pattern[i], name[1..], rest[i], rest[i + 1]);
    }
  }

  /** A byte of the pattern for a byte of the name. */
  lemma CutsWithOne(pattern: Key, name: Key, rest: seq<int>)
    requires pattern != [] && name != [] && (pattern[0] == UNDERSCORE || pattern[0] == name[0])
    requires Cuts(pattern[1..], name[1..], rest)
    ensures Cuts(pattern, name, [0] + Shift(rest, 1))
  {
    forall i | 1 <= i < |pattern| ensures StandsFor(pattern[i], name, rest[i - 1] + 1, rest[i] + 1) {
      assert StandsFor(pattern[1..][i - 1], name[1..], rest[i - 1], rest[i]);
    }
  }

  lemma {:induction false} CutsOf(pattern: Key, name: Key) returns (cuts: seq<int>)
    requires Like(pattern, name)
    ensures Cuts(pattern, name, cuts)
    decreases |pattern|, |name|
  {
    if pattern == [] {
      cuts := [0];
    } else if pattern[0] == PERCENT && Like(pattern[1..], name) {
      cuts := CutsOf(pattern[1..], name);
      CutsWithNothing(pattern, name, cuts);
      cuts := [0] + cuts;
    } else if pattern[0] == PERCENT {
      cuts := CutsOf(pattern, name[1..]);
      CutsWithMore(pattern, name, cuts);
      cuts := [0] + Shift(cuts[1..], 1);
    } else {
      cuts := CutsOf(pattern[1..], name[1..]);
      CutsWithOne(pattern, name, cuts);
      cuts := [0] + Shift(cuts, 1);
    }
  }

  lemma {:induction false} LikeOfCuts(pattern: Key, name: Key, cuts: seq<int>)
    requires Cuts(pattern, name, cuts)
    ensures Like(pattern, name)
    decreases |pattern|, |name|
  {
    if pattern != [] {
      assert StandsFor(pattern[0], name, cuts[0], cuts[1]);
      if cuts[1] == 0 {
        forall i | 0 <= i < |pattern[1..]| ensures StandsFor(pattern[1..][i], name, cuts[1..][i], cuts[1..][i + 1]) {
          assert StandsFor(pattern[i + 1], name, cuts[i + 1], cuts[i + 2]);
        }
        LikeOfCuts(pattern[1..], name, cuts[1..]);
      } else {
        CutsBehind(pattern, name, cuts);
        if pattern[0] == PERCENT {
          LikeOfCuts(pattern, name[1..], [0] + Shift(cuts[1..], -1));
        } else {
          LikeOfCuts(pattern[1..], name[1..], Shift(cuts[1..], -1));
        }
      }
    }
  }

  /** Without the first byte of the name, the cuts behind it. */
  lemma CutsBehind(pattern: Key, name: Key, cuts: seq<int>)
    requires Cuts(pattern, name, cuts) && pattern != [] && 0 < cuts[1]
    ensures name != []
    ensures if pattern[0] == PERCENT then Cuts(pattern, name[1..], [0] + Shift(cuts[1..], -1))
            else Cuts(pattern[1..], name[1..], Shift(cuts[1..], -1))
  {
    assert StandsFor(pattern[0], name, cuts[0], cuts[1]);
    CutsGrow(pattern, name, cuts);
    forall i | 1 <= i < |pattern| ensures StandsFor(pattern[i], name[1..], cuts[i] - 1, cuts[i + 1] - 1) {
      assert StandsFor(pattern[i], name, cuts[i], cuts[i + 1]);
    }
  }

  lemma {:induction false} CutsGrow(pattern: Key, name: Key, cuts: seq<int>)
    requires Cuts(pattern, name, cuts) && pattern != []
    ensures forall i :: 1 <= i <= |pattern| ==> cuts[1] <= cuts[i]
  {
    for n := 1 to |pattern|
      invariant forall i :: 1 <= i <= n ==> cuts[1] <= cuts[i]
    {
      assert StandsFor(pattern[n], name, cuts[n], cuts[n + 1]);
    }
  }

  /** LIKE as SQL defines it: the name can be cut so that each byte of the pattern stands for its part. */
  lemma LikeIsPartition(pattern: Key, name: Key)
    ensures Like(pattern, name) <==> exists cuts :: Cuts(pattern, name, cuts)
  {
    if Like(pattern, name) { var cuts := CutsOf(pattern, name); }
    if cuts :| Cuts(pattern, name, cuts) { LikeOfCuts(pattern, name, cuts); }
  }

  /** A prefix query finds nothing but extensions of the prefix. */
  ghost predicate FindsOnlyExtensions(p: Key) {
    forall name: Key {:trigger Like(p + [PERCENT], name)} :: Like(p + [PERCENT], name) ==> p <= name
  }

  lemma PrefixPatternIff(p: Key)
    ensures FindsOnlyExtensions(p) <==> Plain(p)
  {
    if Plain(p) {
      forall name | Like(p + [PERCENT], name) ensures p <= name { LikePrefix(p, name); }
    } else {
      var name := Stranger(p);
      assert Like(p + [PERCENT], name) && !(p <= name);
    }
  }

  /* From prefixes to patterns, as the log does it. */

  predicate EndsWithSlash(k: Key) {
    k != [] && k[|k| - 1] == SLASH
  }

  /** Keys that end with a slash stand for everything under them. */
  function PatternOf(prefix: Key): Key {
    if EndsWithSlash(prefix) then prefix + [PERCENT] else prefix
  }

  /** The DDS engine's stand-in for LIKE: drop every percent sign and look for the rest anywhere in the name. */
  predicate HasPercent(pattern: Key) {
    PERCENT in pattern
  }

  function RemovePercent(pattern: Key): Key {
    Filter(pattern, b => b != PERCENT)
  }

  predicate OccursAt(name: Key, part: Key, i: int) {
    0 <= i <= |name| - |part| && name[i..i + |part|] == part
  }

  predicate Contains(name: Key, part: Key) {
    exists i :: 0 <= i <= |name| - |part| && OccursAt(name, part, i)
  }

  predicate DdsMatches(pattern: Key, name: Key) {
    if HasPercent(pattern) then Contains(name, RemovePercent(pattern)) else name == pattern
  }

  datatype Matcher = SqlLike | DdsFilter

  /** The rows a subquery groups: names by a pattern, ids in (lo, hi]. */
  datatype Selection = Selection(matcher: Matcher, pattern: Key, lo: int, hi: int)

  predicate Selects(sel: Selection, r: Row) {
    && sel.lo < r.id <= sel.hi
    && match sel.matcher
       case SqlLike => Like(sel.pattern, r.name)
       case DdsFilter => DdsMatches(sel.pattern, r.name)
  }

  /** The row that stands for its group: the largest id among the selected rows of the name. */
  predicate GroupMax(t: seq<Row>, sel: Selection, r: Row) {
    && r in t && Selects(sel, r)
    && forall x :: x in t && x.name == r.name && Selects(sel, x) ==> x.id <= r.id
  }

  predicate Shown(t: seq<Row>, sel: Selection, includeDeleted: bool, r: Row) {
    GroupMax(t, sel, r) && (includeDeleted || !r.deleted)
  }

  /** SELECT the newest selected row per name, WHERE not deleted or everything is wanted, ORDER BY id. */
  function SqlList(t: seq<Row>, sel: Selection, includeDeleted: bool): seq<Row> {
    Filter(t, r => Shown(t, sel, includeDeleted, r))
  }

  lemma SqlListShows(t: seq<Row>, sel: Selection, includeDeleted: bool)
    requires Ascending(t)
    ensures Ascending(SqlList(t, sel, includeDeleted))
    ensures forall r {:trigger r in SqlList(t, sel, includeDeleted)} ::
              r in SqlList(t, sel, includeDeleted) <==> Shown(t, sel, includeDeleted, r)
  {
    FilterAscending(t, r => Shown(t, sel, includeDeleted, r));
  }

  /** The list is the only ascending sequence of the shown rows. */
  lemma SqlListUnique(t: seq<Row>, sel: Selection, includeDeleted: bool, s: seq<Row>)
    requires Ascending(t) && Ascending(s)
    requires forall r :: r in s <==> Shown(t, sel, includeDeleted, r)
    ensures s == SqlList(t, sel, includeDeleted)
  {
    SqlListShows(t, sel, includeDeleted);
    SameRowsSameSeq(s, SqlList(t, sel, includeDeleted));
  }

  function ListCurrent(t: seq<Row>, pattern: Key, includeDeleted: bool): seq<Row> {
    ListRevision(t, pattern, MaxId(t), includeDeleted)
  }

  function ListRevision(t: seq<Row>, pattern: Key, rev: int, includeDeleted: bool): seq<Row> {
    SqlList(t, Selection(SqlLike, pattern, 0, rev), includeDeleted)
  }

  /** ... AND id > (SELECT MAX(id) of the start key): without such a row the maximum is NULL and nothing compares. */
  function ListAfterKey(t: seq<Row>, pattern: Key, rev: int, start: Key, includeDeleted: bool): seq<Row> {
    match Latest(t, start, rev)
    case None => []
    case Some(s) => SqlList(t, Selection(SqlLike, pattern, s.id, rev), includeDeleted)
  }

  predicate MatchesPattern(m: Matcher, pattern: Key, name: Key) {
    match m
    case SqlLike => Like(pattern, name)
    case DdsFilter => DdsMatches(pattern, name)
  }

  /** A key, or a prefix, against a name. */
  predicate MatchesKey(m: Matcher, k: Key, name: Key) {
    MatchesPattern(m, PatternOf(k), name)
  }

  /** The rows behind a watch: every matching row above a revision. */
  function After(t: seq<Row>, m: Matcher, pattern: Key, rev: int): seq<Row> {
    Filter(t, (r: Row) => rev < r.id && MatchesPattern(m, pattern, r.name))
  }

  function Limit<T>(s: seq<T>, limit: int): seq<T> {
    if 0 < limit < |s| then s[..limit] else s
  }

  /** SQLLog.List: prefix to pattern, start key dropped or kept, current or past revision. */
  function LogList(t: seq<Row>, prefix: Key, startKey: Key, limit: int, revision: int,
                   includeDeleted: bool := false): seq<Row>
  {
    var start := if !EndsWithSlash(prefix) || startKey == prefix then [] else startKey;
    var rows :=
      if revision == 0 then ListCurrent(t, PatternOf(prefix), includeDeleted)
      else if start == [] then ListRevision(t, PatternOf(prefix), revision, includeDeleted)
      else ListAfterKey(t, PatternOf(prefix), revision, start, includeDeleted);
    Limit(rows, limit)
  }

  /** The list at a revision is the live view at that revision: one row per live matching key. */
  lemma ListIsLiveView(t: seq<Row>, pattern: Key, rev: int, r: Row)
    requires WellFormed(t)
    ensures r in ListRevision(t, pattern, rev, false) <==>
            Like(pattern, r.name) && Latest(t, r.name, rev) == Some(r) && !r.deleted
  {
    var sel := Selection(SqlLike, pattern, 0, rev);
    SqlListShows(t, sel, false);
    LatestIsLatest(t, r.name, rev);
    if GroupMax(t, sel, r) {
      LatestUnique(t, r.name, rev, Some(r));
    }
  }

  /** Cutting the rows at `lo` before grouping them cuts the grouped list at `lo`. */
  lemma CutBeforeGroupIsCutAfter(t: seq<Row>, matcher: Matcher, pattern: Key, lo: int, rev: int, includeDeleted: bool)
    requires WellFormed(t) && 0 <= lo
    ensures SqlList(t, Selection(matcher, pattern, lo, rev), includeDeleted)
         == Filter(SqlList(t, Selection(matcher, pattern, 0, rev), includeDeleted), (r: Row) => lo < r.id)
  {
    var all, cut := Selection(matcher, pattern, 0, rev), Selection(matcher, pattern, lo, rev);
    var full := SqlList(t, all, includeDeleted);
    SqlListShows(t, all, includeDeleted);
    FilterAscending(full, (r: Row) => lo < r.id);
    forall r ensures r in Filter(full, (r: Row) => lo < r.id) <==> Shown(t, cut, includeDeleted, r) {
      if lo < r.id && GroupMax(t, cut, r) {
        assert GroupMax(t, all, r);
      }
    }
    SqlListUnique(t, cut, includeDeleted, Filter(full, (r: Row) => lo < r.id));
  }

  /** With a start key that has a row, the query for the rest of a list is the list strictly after that row. */
  lemma AfterKeyIsSuffix(t: seq<Row>, pattern: Key, rev: int, start: Key, includeDeleted: bool)
    requires WellFormed(t) && Latest(t, start, rev).Some?
    ensures ListAfterKey(t, pattern, rev, start, includeDeleted)
         == Filter(ListRevision(t, pattern, rev, includeDeleted), (r: Row) => Latest(t, start, rev).value.id < r.id)
  {
    LatestIsLatest(t, start, rev);
    var s := Latest(t, start, rev).value;
    CutBeforeGroupIsCutAfter(t, SqlLike, pattern, s.id, rev, includeDeleted);
    var full := ListRevision(t, pattern, rev, includeDeleted);
    SqlListShows(t, Selection(SqlLike, pattern, 0, rev), includeDeleted);
    FilterAscending(full, (r: Row) => s.id < r.id);
    FilterAscending(full, (r: Row) => Latest(t, start, rev).value.id < r.id);
    SameRowsSameSeq(Filter(full, (r: Row) => s.id < r.id),
                    Filter(full, (r: Row) => Latest(t, start, rev).value.id < r.id));
  }

  /** In particular, continuing after the i-th entry of a list gives the entries after it. */
  lemma ContinueAfterEntry(t: seq<Row>, pattern: Key, rev: int, includeDeleted: bool, i: nat)
    requires WellFormed(t) && i < |ListRevision(t, pattern, rev, includeDeleted)|
    ensures var full := ListRevision(t, pattern, rev, includeDeleted);
            ListAfterKey(t, pattern, rev, full[i].name, includeDeleted) == full[i + 1..]
  {
    var sel := Selection(SqlLike, pattern, 0, rev);
    var full := ListRevision(t, pattern, rev, includeDeleted);
    SqlListShows(t, sel, includeDeleted);
    var s := full[i];
    assert s in full;
    assert IsLatest(t, s.name, rev, Some(s));
    LatestUnique(t, s.name, rev, Some(s));
    AfterKeyIsSuffix(t, pattern, rev, s.name, includeDeleted);
    var rest := Filter(full, (r: Row) => Latest(t, s.name, rev).value.id < r.id);
    FilterAscending(full, (r: Row) => Latest(t, s.name, rev).value.id < r.id);
    forall r ensures r in rest <==> r in full[i + 1..] {
      if r in full {
        var j :| 0 <= j < |full| && full[j] == r;
        if i < j { assert full[i + 1..][j - i - 1] == r; }
      }
    }
    SameRowsSameSeq(rest, full[i + 1..]);
  }

  /** Rows appended later do not show in a list at an earlier revision. */
  lemma ListsAreStable(t: seq<Row>, t': seq<Row>, sel: Selection, includeDeleted: bool)
    requires WellFormed(t') && t <= t' && sel.hi <= MaxId(t)
    ensures SqlList(t', sel, includeDeleted) == SqlList(t, sel, includeDeleted)
  {
    assert t != [] ==> forall j :: |t| <= j < |t'| ==> t'[|t| - 1].id < t'[j].id;
    forall r | r in t' && r.id <= sel.hi ensures r in t {
      var i :| 0 <= i < |t'| && t'[i] == r;
    }
    forall r | r in t ensures r in t' {
      var i :| 0 <= i < |t| && t[i] == r;
      assert t'[i] == r;
    }
    SqlListShows(t', sel, includeDeleted);
    forall r ensures r in SqlList(t', sel, includeDeleted) <==> Shown(t, sel, includeDeleted, r) {}
    SqlListUnique(t, sel, includeDeleted, SqlList(t', sel, includeDeleted));
  }

  /* Where the DDS filters and LIKE part. */

  lemma {:induction false} RemovePercentPrefix(p: Key)
    requires PERCENT !in p
    ensures RemovePercent(p + [PERCENT]) == p
  {
    NothingToRemove(p);
    assert (p + [PERCENT])[..|p|] == p;
  }

  lemma {:induction false} NothingToRemove(p: Key)
    requires PERCENT !in p
    ensures Filter(p, b => b != PERCENT) == p
  {
    if p != [] {
      NothingToRemove(p[..|p| - 1]);
      assert p[|p| - 1] in p;
    }
  }

  lemma RemovePercentBetween(p: Key, q: Key)
    requires PERCENT !in p && PERCENT !in q
    ensures RemovePercent(p + [PERCENT] + q) == p + q
  {
    RemovePercentPrefix(p);
    NothingToRemove(q);
    FilterConcat(p + [PERCENT], q, b => b != PERCENT);
  }

  /** The engine's filter for a pattern with one percent sign: the rest of the pattern anywhere in the name. */
  lemma DdsMatchesIff(p: Key, q: Key, name: Key)
    requires PERCENT !in p && PERCENT !in q
    ensures DdsMatches(p + [PERCENT] + q, name) <==> exists a, b :: name == a + (p + q) + b
    ensures DdsMatches(p, name) <==> name == p
  {
    RemovePercentBetween(p, q);
    assert PERCENT in p + [PERCENT] + q by { assert (p + [PERCENT] + q)[|p|] == PERCENT; }
    if Contains(name, p + q) {
      var i :| 0 <= i <= |name| - |p + q| && OccursAt(name, p + q, i);
      assert name == name[..i] + (p + q) + name[i + |p + q|..];
    }
    if a, b :| name == a + (p + q) + b {
      assert OccursAt(name, p + q, |a|);
    }
  }

  /** The filter for p% takes every name LIKE takes, and besides them those with p somewhere after the start. */
  lemma FilterAgainstLike(p: Key, name: Key)
    requires Plain(p)
    ensures DdsMatches(p + [PERCENT], name) <==> Contains(name, p)
    ensures Like(p + [PERCENT], name) ==> DdsMatches(p + [PERCENT], name)
    ensures DdsMatches(p, name) <==> Like(p, name)
  {
    LikePrefix(p, name);
    LikeExact(p, name);
    RemovePercentPrefix(p);
    assert PERCENT in p + [PERCENT] by { assert (p + [PERCENT])[|p|] == PERCENT; }
    if p <= name { assert OccursAt(name, p, 0); }
  }

  /** The two selections list the same rows exactly when no selected name holds the prefix further in. */
  lemma FilterListsEqual(t: seq<Row>, p: Key, lo: int, hi: int)
    requires WellFormed(t) && Plain(p)
    ensures SqlList(t, Selection(DdsFilter, p + [PERCENT], lo, hi), true)
         == SqlList(t, Selection(SqlLike, p + [PERCENT], lo, hi), true)
         <==> forall r :: r in t && lo < r.id <= hi && Contains(r.name, p) ==> p <= r.name
  {
    var dds, sql := Selection(DdsFilter, p + [PERCENT], lo, hi), Selection(SqlLike, p + [PERCENT], lo, hi);
    SqlListShows(t, dds, true);
    SqlListShows(t, sql, true);
    forall name ensures DdsMatches(p + [PERCENT], name) <==> Contains(name, p)
                ensures Like(p + [PERCENT], name) <==> p <= name {
      FilterAgainstLike(p, name);
      LikePrefix(p, name);
    }
    if forall r :: r in t && lo < r.id <= hi && Contains(r.name, p) ==> p <= r.name {
      forall r | r in t ensures Selects(dds, r) <==> Selects(sql, r) { FilterAgainstLike(p, r.name); }
      SqlListUnique(t, sql, true, SqlList(t, dds, true));
    } else {
      var r :| r in t && lo < r.id <= hi && Contains(r.name, p) && !(p <= r.name);
      var g := GroupOf(t, dds, r);
      assert g in SqlList(t, dds, true) && !Selects(sql, g);
    }
  }

  /** Every selected row has a group, and the group a newest row. */
  lemma {:induction false} GroupOf(t: seq<Row>, sel: Selection, r: Row) returns (g: Row)
    requires Ascending(t) && r in t && Selects(sel, r)
    ensures GroupMax(t, sel, g) && g.name == r.name
  {
    var last, front := t[|t| - 1], t[..|t| - 1];
    assert t == front + [last];
    forall x | x in t ensures x.id <= last.id { MaxIdBounds(t, x); }
    if last.name == r.name && Selects(sel, last) {
      g := last;
    } else {
      g := GroupOf(front, sel, r);
    }
  }
}
