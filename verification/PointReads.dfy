/**
 Reads of one key. The store has no lookup of its own: it lists the key as if it were a prefix, with limit 1, and takes
 the first row. Which keys, and under DDS which orders of arrival, make that the newest row of the key.
 */
module PointReads {
  import opened Tables
  import opened SqlQueries
  import opened QueryEngine

  function First(s: seq<Row>): Option<Row> {
    if s == [] then None else Some(s[0])
  }

  /** logstructured.get on an SQL driver: the first row of the key's list, now (revision 0) or at a revision. */
  function Found(t: seq<Row>, k: Key, revision: int, includeDeleted: bool): Option<Row> {
    First(LogList(t, k, [], 1, revision, includeDeleted))
  }

  function KeySelection(m: Matcher, k: Key, hi: int): Selection {
    Selection(m, PatternOf(k), 0, hi)
  }

  /** logstructured.get on the DDS driver, when the selected rows have arrived in this order. */
  function FoundInSamples(rows: seq<Row>, t: seq<Row>, k: Key, includeDeleted: bool): Option<Row> {
    First(Limit(ShownBy(rows, t, KeySelection(DdsFilter, k, MaxId(t)), if includeDeleted then "t" else "f"), 1))
  }

  /** The key is its own list: it does not end with a slash, and holds nothing that is special to the matcher. */
  predicate ExactKey(m: Matcher, k: Key) {
    !EndsWithSlash(k) && PERCENT !in k && (m.SqlLike? ==> UNDERSCORE !in k)
  }

  /** The SQL drivers' exact keys are exact under DDS too, and none of them is the reserved key. */
  lemma ExactKeysOfSql(k: Key)
    requires ExactKey(SqlLike, k)
    ensures ExactKey(DdsFilter, k) && k != COMPACT_KEY
  {
    assert COMPACT_KEY[7] == UNDERSCORE;
  }

  lemma ExactMatch(m: Matcher, k: Key, name: Key)
    requires ExactKey(m, k)
    ensures MatchesKey(m, k, name) <==> name == k
  {
    if m.SqlLike? { LikeExact(k, name); }
  }

  /** Every other key matches a name besides its own. */
  lemma OtherMatch(m: Matcher, k: Key) returns (name: Key)
    requires !ExactKey(m, k)
    ensures name != k && MatchesKey(m, k, name)
  {
    match m
    case SqlLike =>
      if EndsWithSlash(k) {
        name := k + [SLASH];
        LikeItself(k, [SLASH]);
      } else {
        name := Stranger(k);
      }
    case DdsFilter =>
      var part := RemovePercent(k);
      if EndsWithSlash(k) {
        name := part + [0];
        assert (k + [PERCENT])[..|k|] == k && (k + [PERCENT])[|k|] == PERCENT;
        assert name[|name| - 1] == 0;
      } else {
        name := part;
      }
      assert OccursAt(name, part, 0);
  }

  /** In this table the key matches itself and nothing else. */
  ghost predicate ReadsItself(m: Matcher, t: seq<Row>, k: Key) {
    MatchesKey(m, k, k) && forall r :: r in t && MatchesKey(m, k, r.name) ==> r.name == k
  }

  lemma ExactReadsItself(m: Matcher, t: seq<Row>, k: Key)
    requires ExactKey(m, k)
    ensures ReadsItself(m, t, k)
  {
    ExactMatch(m, k, k);
    forall r | r in t && MatchesKey(m, k, r.name) ensures r.name == k { ExactMatch(m, k, r.name); }
  }

  /** Keys none of which matches another, nor the store's own rows. */
  ghost predicate Apart(m: Matcher, keys: set<Key>) {
    forall k :: k in keys ==>
      && MatchesKey(m, k, k) && (forall j :: j in keys && MatchesKey(m, k, j) ==> j == k)
      && (MatchesKey(m, k, COMPACT_KEY) ==> k == COMPACT_KEY)
      && (forall id: nat :: MatchesKey(m, k, FillKey(id)) ==> k == FillKey(id))
  }

  ghost predicate Named(keys: set<Key>, name: Key) {
    name in keys || name == COMPACT_KEY || exists id: nat :: name == FillKey(id)
  }

  /** They read themselves in every table of theirs, whatever they are made of. */
  lemma ApartReadsItself(m: Matcher, keys: set<Key>, t: seq<Row>, k: Key)
    requires Apart(m, keys) && k in keys && forall r :: r in t ==> Named(keys, r.name)
    ensures ReadsItself(m, t, k)
  {
    forall r | r in t && MatchesKey(m, k, r.name) ensures r.name == k {
      assert Named(keys, r.name);
    }
  }

  /** A row as an operation takes it that does not want tombstones. */
  function Unless(o: Option<Row>, includeDeleted: bool): Option<Row> {
    if o.Some? && o.value.deleted && !includeDeleted then None else o
  }

  function Listed(m: Matcher, t: seq<Row>, k: Key, hi: int, includeDeleted: bool): Option<Row> {
    First(SqlList(t, KeySelection(m, k, hi), includeDeleted))
  }

  /** The list of a key that reads itself is its newest row, unless that is a tombstone and not wanted. */
  lemma ListedIsLatest(m: Matcher, t: seq<Row>, k: Key, hi: int, includeDeleted: bool)
    requires WellFormed(t) && ReadsItself(m, t, k)
    ensures Listed(m, t, k, hi, includeDeleted) == Unless(Latest(t, k, hi), includeDeleted)
  {
    var sel, o := KeySelection(m, k, hi), Unless(Latest(t, k, hi), includeDeleted);
    var list := if o.Some? then [o.value] else [];
    LatestIsLatest(t, k, hi);
    forall r | r in t ensures Selects(sel, r) <==> 0 < r.id <= hi && r.name == k {}
    forall r ensures r in list <==> Shown(t, sel, includeDeleted, r) {
      if GroupMax(t, sel, r) { LatestUnique(t, k, hi, Some(r)); }
    }
    SqlListUnique(t, sel, includeDeleted, list);
  }

  /** Reading a key by listing it is right in every table exactly for the exact keys. */
  lemma ExactKeyIff(m: Matcher, k: Key)
    ensures ExactKey(m, k) <==> forall t :: WellFormed(t) ==> Listed(m, t, k, MaxId(t), true) == Newest(t, k)
  {
    if ExactKey(m, k) {
      forall t | WellFormed(t) ensures Listed(m, t, k, MaxId(t), true) == Newest(t, k) {
        ExactReadsItself(m, t, k);
        ListedIsLatest(m, t, k, MaxId(t), true);
      }
    } else {
      var t, row := StrangersTable(m, k);
      assert Listed(m, t, k, MaxId(t), true) != Newest(t, k);
    }
  }

  /** One row, of another name, that reads of the key find. */
  lemma StrangersTable(m: Matcher, k: Key) returns (t: seq<Row>, row: Row)
    requires !ExactKey(m, k)
    ensures t == [row] && WellFormed(t) && row.id == 1 && row.name != k
    ensures row.created && !row.deleted && row.prevRev == 0 && row.createRev == 0 && row.oldValue == []
    ensures Newest(t, k) == None && forall includeDeleted :: Listed(m, t, k, MaxId(t), includeDeleted) == Some(row)
  {
    var name := OtherMatch(m, k);
    row := Row(1, name, true, false, 0, 0, 0, [], []);
    t := [row];
    NewestIsNewest(t, k);
    forall includeDeleted ensures Listed(m, t, k, MaxId(t), includeDeleted) == Some(row) {
      forall r ensures r in t <==> Shown(t, KeySelection(m, k, 1), includeDeleted, r) {}
      SqlListUnique(t, KeySelection(m, k, 1), includeDeleted, t);
    }
  }

  lemma FoundIsListed(t: seq<Row>, k: Key, revision: int, includeDeleted: bool)
    ensures Found(t, k, revision, includeDeleted)
         == Listed(SqlLike, t, k, if revision == 0 then MaxId(t) else revision, includeDeleted)
  {}

  /** On an SQL driver a key that reads itself, like every exact key, is read as it should be. */
  lemma FoundExactly(t: seq<Row>, k: Key, revision: int, includeDeleted: bool)
    requires WellFormed(t) && ReadsItself(SqlLike, t, k)
    ensures Found(t, k, revision, includeDeleted)
         == Unless(Latest(t, k, if revision == 0 then MaxId(t) else revision), includeDeleted)
  {
    FoundIsListed(t, k, revision, includeDeleted);
    ListedIsLatest(SqlLike, t, k, if revision == 0 then MaxId(t) else revision, includeDeleted);
  }

  lemma FirstIsOldest(t: seq<Row>, sel: Selection, r: Row)
    requires WellFormed(t) && GroupMax(t, sel, r)
    ensures var list := SqlList(t, sel, true); list != [] && GroupMax(t, sel, list[0]) && list[0].id <= r.id
  {
    var list := SqlList(t, sel, true);
    SqlListShows(t, sel, true);
    assert Shown(t, sel, true, r) && r in list;
    var i :| 0 <= i < |list| && list[i] == r;
    assert 0 < i ==> list[0].id < list[i].id;
    assert list[0] in list;
  }

  /** In a given table, for any key: no other name that the key matches may have its newest row before the key's own. */
  lemma ListedIsLatestIff(m: Matcher, t: seq<Row>, k: Key, hi: int)
    requires WellFormed(t)
    ensures Listed(m, t, k, hi, true) == Latest(t, k, hi)
            <==> && (Latest(t, k, hi).Some? ==> MatchesKey(m, k, k))
                 && forall r :: GroupMax(t, KeySelection(m, k, hi), r) && r.name != k ==>
                      Latest(t, k, hi).Some? && Latest(t, k, hi).value.id < r.id
  {
    var sel, own := KeySelection(m, k, hi), Latest(t, k, hi);
    var list := SqlList(t, sel, true);
    SqlListShows(t, sel, true);
    LatestIsLatest(t, k, hi);
    if list != [] {
      assert list[0] in list;
      if list[0].name == k { LatestUnique(t, k, hi, Some(list[0])); }
    }
    forall r | GroupMax(t, sel, r) ensures list != [] && list[0].id <= r.id { FirstIsOldest(t, sel, r); }
    if own.Some? && MatchesKey(m, k, k) {
      assert GroupMax(t, sel, own.value);
      if list[0].id == own.value.id { SameIdSameRow(t, list[0], own.value); }
    }
    forall r | GroupMax(t, sel, r) && own.Some? && r.id == own.value.id ensures r == own.value {
      SameIdSameRow(t, r, own.value);
    }
  }

  /**
   Under DDS a key that reads itself is read as it should be if tombstones are wanted, and otherwise exactly when its
   first and newest samples agree on being deleted: the first alone settles whether the newest row is shown.
   */
  lemma FoundInSamplesIff(rows: seq<Row>, t: seq<Row>, k: Key)
    requires WellFormed(t) && ReadsItself(DdsFilter, t, k)
    requires Holds(rows, t, KeySelection(DdsFilter, k, MaxId(t)))
    ensures FoundInSamples(rows, t, k, true) == Newest(t, k)
    ensures FoundInSamples(rows, t, k, false) == if Visible(rows, k, "f") then Newest(t, k) else None
    ensures FoundInSamples(rows, t, k, false) == Unless(Newest(t, k), false) <==> FirstAgrees(rows)
  {
    var sel := KeySelection(DdsFilter, k, MaxId(t));
    NewestIsNewest(t, k);
    forall r ensures r in rows <==> r in t && r.name == k {
      if r in t { MaxIdBounds(t, r); }
    }
    FirstOfFinds(rows, k);
    NewestAmong(rows, t, k);
    OneShown(rows, t, k, sel, "t");
    OneShown(rows, t, k, sel, "f");
  }

  lemma NewestAmong(rows: seq<Row>, t: seq<Row>, k: Key)
    requires WellFormed(t) && forall r :: r in rows <==> r in t && r.name == k
    ensures forall r :: IsNewestIn(rows, r) <==> Newest(t, k) == Some(r)
  {
    NewestIsNewest(t, k);
    forall r | IsNewestIn(rows, r) ensures Newest(t, k) == Some(r) { NewestUnique(t, k, Some(r)); }
  }

  lemma OneShown(rows: seq<Row>, t: seq<Row>, k: Key, sel: Selection, flag: string)
    requires WellFormed(t) && Holds(rows, t, sel)
    requires forall r :: IsNewestIn(rows, r) <==> Newest(t, k) == Some(r)
    requires Newest(t, k).Some? ==> Newest(t, k).value.name == k
    ensures First(Limit(ShownBy(rows, t, sel, flag), 1)) == if Visible(rows, k, flag) then Newest(t, k) else None
  {
    var list := ShownBy(rows, t, sel, flag);
    var one := if Visible(rows, k, flag) && Newest(t, k).Some? then [Newest(t, k).value] else [];
    ShowsMembers(rows, t, sel, flag);
    SameRowsSameSeq(list, one);
  }
}
