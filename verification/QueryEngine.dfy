/**
 The DDS query engine: hand-written GROUP BY, MAX and ORDER BY over the samples of a reader, which come in no
 particular order, against the SQL lists.
 */
module QueryEngine {
  import opened Tables
  import opened SqlQueries

  /** A sample of the reader's cache; one without valid data carries nothing to look at. */
  datatype Sample = Sample(validData: bool, row: Row)

  datatype Generic = Generic(maxId: int, compactPrev: int, row: Row)

  function ValidRows(samples: seq<Sample>): seq<Row> {
    if samples == [] then []
    else
      var last := samples[|samples| - 1];
      ValidRows(samples[..|samples| - 1]) + if last.validData then [last.row] else []
  }

  /** The rows of the valid samples and no others, in their order. */
  lemma {:induction false} ValidRowsAre(samples: seq<Sample>, more: seq<Sample>)
    ensures ValidRows(samples + more) == ValidRows(samples) + ValidRows(more)
    ensures forall r :: r in ValidRows(more) <==> Sample(true, r) in more
    decreases |more|
  {
    if more == [] {
      assert samples + more == samples;
    } else {
      var front, last := more[..|more| - 1], more[|more| - 1];
      ValidRowsAre(samples, front);
      assert (samples + more)[..|samples + more| - 1] == samples + front && more == front + [last];
    }
  }

  /** The row that arrived first among those of a name. */
  function FirstOf(rows: seq<Row>, k: Key): Option<Row> {
    if rows == [] then None
    else
      var earlier := FirstOf(rows[..|rows| - 1], k);
      var last := rows[|rows| - 1];
      if earlier.Some? then earlier
      else if last.name == k then Some(last) else None
  }

  ghost predicate IsNewestIn(rows: seq<Row>, r: Row) {
    r in rows && forall x :: x in rows && x.name == r.name ==> x.id <= r.id
  }

  ghost predicate UniqueIds(rows: seq<Row>) {
    forall x, y :: x in rows && y in rows && x.id == y.id ==> x == y
  }

  /* The order std::sort uses: std::tie over the eleven fields. */

  function Num(b: bool): int {
    if b then 1 else 0
  }

  predicate Less(a: Generic, b: Generic) {
    if a.maxId != b.maxId then a.maxId < b.maxId
    else if a.compactPrev != b.compactPrev then a.compactPrev < b.compactPrev
    else if a.row.id != b.row.id then a.row.id < b.row.id
    else if a.row.name != b.row.name then LessBytes(a.row.name, b.row.name)
    else if a.row.created != b.row.created then Num(a.row.created) < Num(b.row.created)
    else if a.row.deleted != b.row.deleted then Num(a.row.deleted) < Num(b.row.deleted)
    else if a.row.createRev != b.row.createRev then a.row.createRev < b.row.createRev
    else if a.row.prevRev != b.row.prevRev then a.row.prevRev < b.row.prevRev
    else if a.row.lease != b.row.lease then a.row.lease < b.row.lease
    else if a.row.value != b.row.value then LessBytes(a.row.value, b.row.value)
    else LessBytes(a.row.oldValue, b.row.oldValue)
  }

  function Insert(g: Generic, s: seq<Generic>): seq<Generic> {
    if s == [] then [g]
    else if Less(s[|s| - 1], g) then s + [g]
    else Insert(g, s[..|s| - 1]) + [s[|s| - 1]]
  }

  /** std::sort, as insertion by the order above. */
  function Sort(s: seq<Generic>): seq<Generic> {
    if s == [] then [] else Insert(s[|s| - 1], Sort(s[..|s| - 1]))
  }

  function Rows(s: seq<Generic>): seq<Row> {
    seq(|s|, i requires 0 <= i < |s| => s[i].row)
  }

  /** The entries of one answer share the two leading fields and differ in their ids. */
  ghost predicate OneAnswer(s: seq<Generic>, maxId: int, compactPrev: int) {
    && (forall i :: 0 <= i < |s| ==> s[i].maxId == maxId && s[i].compactPrev == compactPrev)
    && (forall i, j :: 0 <= i < j < |s| ==> s[i].row.id != s[j].row.id)
  }

  ghost predicate SortedById(s: seq<Generic>) {
    forall i, j :: 0 <= i < j < |s| ==> s[i].row.id < s[j].row.id
  }

  lemma SortedAppend(s: seq<Generic>, g: Generic)
    requires SortedById(s) && forall x :: x in s ==> x.row.id < g.row.id
    ensures SortedById(s + [g])
  {}

  lemma LastIsLargest(s: seq<Generic>)
    requires SortedById(s) && s != []
    ensures SortedById(s[..|s| - 1])
    ensures forall x :: x in s[..|s| - 1] ==> x.row.id < s[|s| - 1].row.id
  {}

  lemma {:induction false} InsertAdds(g: Generic, s: seq<Generic>)
    ensures forall x :: x in Insert(g, s) <==> x in s || x == g
  {
    if s != [] {
      InsertAdds(g, s[..|s| - 1]);
      assert s == s[..|s| - 1] + [s[|s| - 1]];
    }
  }

  /** Between entries of one answer the order is that of their ids. */
  lemma {:induction false} InsertSorts(g: Generic, s: seq<Generic>)
    requires SortedById(s)
    requires forall x :: x in s ==> x.maxId == g.maxId && x.compactPrev == g.compactPrev && x.row.id != g.row.id
    ensures SortedById(Insert(g, s))
  {
    if s != [] {
      var last, front := s[|s| - 1], s[..|s| - 1];
      assert s == front + [last];
      LastIsLargest(s);
      if Less(last, g) {
        SortedAppend(s, g);
      } else {
        InsertSorts(g, front);
        InsertAdds(g, front);
        SortedAppend(Insert(g, front), last);
      }
    }
  }

  lemma {:induction false} SortAdds(s: seq<Generic>)
    ensures forall x :: x in Sort(s) <==> x in s
  {
    if s != [] {
      SortAdds(s[..|s| - 1]);
      InsertAdds(s[|s| - 1], Sort(s[..|s| - 1]));
      assert s == s[..|s| - 1] + [s[|s| - 1]];
    }
  }

  lemma {:induction false} SortSortsById(s: seq<Generic>, maxId: int, compactPrev: int)
    requires OneAnswer(s, maxId, compactPrev)
    ensures SortedById(Sort(s))
  {
    if s != [] {
      var last, front := s[|s| - 1], s[..|s| - 1];
      SortSortsById(front, maxId, compactPrev);
      SortAdds(front);
      InsertSorts(last, Sort(front));
    }
  }

  lemma SortSorts(s: seq<Generic>, maxId: int, compactPrev: int)
    requires OneAnswer(s, maxId, compactPrev)
    ensures Ascending(Rows(Sort(s)))
    ensures forall x :: x in Sort(s) <==> x in s
  {
    SortSortsById(s, maxId, compactPrev);
    SortAdds(s);
  }

  /** The flag the engine keeps per name: with "f" it is settled by the sample that arrived first. */
  predicate Visible(rows: seq<Row>, k: Key, flag: string) {
    flag == "f" ==> FirstOf(rows, k).Some? && !FirstOf(rows, k).value.deleted
  }

  /** One row per name, the newest; with "f", only for names whose first sample was not deleted. */
  ghost predicate Answers(result: seq<Generic>, rows: seq<Row>, maxId: int, compactPrev: int, flag: string) {
    && Ascending(Rows(result))
    && forall g {:trigger g in result} :: g in result <==>
         && g.maxId == maxId && g.compactPrev == compactPrev
         && IsNewestIn(rows, g.row)
         && Visible(rows, g.row.name, flag)
  }

  lemma {:induction false} FirstOfFinds(rows: seq<Row>, k: Key)
    ensures FirstOf(rows, k).Some? <==> exists r :: r in rows && r.name == k
    ensures FirstOf(rows, k).Some? ==> FirstOf(rows, k).value in rows && FirstOf(rows, k).value.name == k
  {
    if rows != [] {
      FirstOfFinds(rows[..|rows| - 1], k);
      assert rows == rows[..|rows| - 1] + [rows[|rows| - 1]];
    }
  }

  /** The map the engine builds up: per name the newest row so far and the visibility of the name. */
  ghost predicate Grouped(groups: map<Key, (Generic, bool)>, rows: seq<Row>, maxId: int, compactPrev: int,
                          flag: string)
  {
    && (forall r :: r in rows ==> r.name in groups)
    && forall k {:trigger groups[k]} :: k in groups ==>
         && groups[k].0 == Generic(maxId, compactPrev, groups[k].0.row)
         && groups[k].0.row.name == k
         && IsNewestIn(rows, groups[k].0.row)
         && groups[k].1 == Visible(rows, k, flag)
  }

  /** The first loop of query_common_subquery: insert into the map, or replace by the larger id. */
  method GroupSamples(samples: seq<Sample>, maxId: int, compactPrev: int, flag: string)
    returns (groups: map<Key, (Generic, bool)>)
    ensures Grouped(groups, ValidRows(samples), maxId, compactPrev, flag)
  {
    groups := map[];
    assert ValidRows(samples[..0]) == [];
    for i := 0 to |samples|
      invariant Grouped(groups, ValidRows(samples[..i]), maxId, compactPrev, flag)
    {
      ghost var rows, rows' := ValidRows(samples[..i]), ValidRows(samples[..i + 1]);
      assert samples[..i + 1][..i] == samples[..i];
      if samples[i].validData {
        var row := samples[i].row;
        assert rows' == rows + [row];
        ghost var before := groups;
        var content := (Generic(maxId, compactPrev, row), true);
        if flag == "f" {
          if row.deleted {
            content := (content.0, false);
          }
        }
        if row.name !in groups {
          groups := groups[row.name := content];
        } else if groups[row.name].0.row.id < row.id {
          groups := groups[row.name := (content.0, groups[row.name].1)];
        }
        GroupOneMore(before, groups, rows, row, maxId, compactPrev, flag);
      } else {
        assert rows' == rows;
      }
    }
    assert samples[..|samples|] == samples;
  }

  /** The second loop: the visible groups, in whatever order the map yields them. */
  method VisibleGroups(groups: map<Key, (Generic, bool)>) returns (result: seq<Generic>)
    requires forall k :: k in groups ==> groups[k].0.row.name == k
    ensures forall g {:trigger g in result} :: g in result <==>
              g.row.name in groups && g == groups[g.row.name].0 && groups[g.row.name].1
    ensures forall i, j :: 0 <= i < j < |result| ==> result[i].row.name != result[j].row.name
  {
    result := [];
    var names := groups.Keys;
    while names != {}
      invariant names <= groups.Keys
      invariant forall g {:trigger g in result} :: g in result <==>
                  g.row.name in groups && g.row.name !in names && g == groups[g.row.name].0 && groups[g.row.name].1
      invariant forall i, j :: 0 <= i < j < |result| ==> result[i].row.name != result[j].row.name
      decreases |names|
    {
      var k :| k in names;
      names := names - {k};
      if groups[k].1 {
        assert forall i :: 0 <= i < |result| ==> result[i] in result;
        result := result + [groups[k].0];
      }
    }
  }

  /** query_common_subquery: group by name, keep the largest id of each, filter, order by id. */
  method QueryCommonSubquery(samples: seq<Sample>, maxId: int, compactPrev: int, flag: string)
    returns (result: seq<Generic>)
    requires UniqueIds(ValidRows(samples))
    ensures Answers(result, ValidRows(samples), maxId, compactPrev, flag)
  {
    var groups := GroupSamples(samples, maxId, compactPrev, flag);
    var collected := VisibleGroups(groups);
    GroupsAnswer(groups, collected, ValidRows(samples), maxId, compactPrev, flag);
    result := Sort(collected);
  }

  lemma GroupsAnswer(groups: map<Key, (Generic, bool)>, collected: seq<Generic>, rows: seq<Row>,
                     maxId: int, compactPrev: int, flag: string)
    requires UniqueIds(rows) && Grouped(groups, rows, maxId, compactPrev, flag)
    requires forall g {:trigger g in collected} :: g in collected <==>
               g.row.name in groups && g == groups[g.row.name].0 && groups[g.row.name].1
    requires forall i, j :: 0 <= i < j < |collected| ==> collected[i].row.name != collected[j].row.name
    ensures Answers(Sort(collected), rows, maxId, compactPrev, flag)
  {
    forall i | 0 <= i < |collected|
      ensures collected[i].maxId == maxId && collected[i].compactPrev == compactPrev && collected[i].row in rows
    {
      assert collected[i] in collected;
    }
    forall i, j | 0 <= i < j < |collected| ensures collected[i].row.id != collected[j].row.id {}
    SortSorts(collected, maxId, compactPrev);
    forall g ensures g in Sort(collected) <==> g.maxId == maxId && g.compactPrev == compactPrev
                                               && IsNewestIn(rows, g.row) && Visible(rows, g.row.name, flag) {
      assert g in Sort(collected) <==> g in collected;
      if IsNewestIn(rows, g.row) {
        assert g.row.name in groups && IsNewestIn(rows, groups[g.row.name].0.row);
      }
    }
  }

  lemma GroupOneMore(before: map<Key, (Generic, bool)>, after: map<Key, (Generic, bool)>, rows: seq<Row>, row: Row,
                     maxId: int, compactPrev: int, flag: string)
    requires Grouped(before, rows, maxId, compactPrev, flag)
    requires after ==
      if row.name !in before then before[row.name := (Generic(maxId, compactPrev, row), !(flag == "f" && row.deleted))]
      else if before[row.name].0.row.id < row.id then
        before[row.name := (Generic(maxId, compactPrev, row), before[row.name].1)]
      else before
    ensures Grouped(after, rows + [row], maxId, compactPrev, flag)
  {
    var rows' := rows + [row];
    assert rows'[..|rows|] == rows && rows'[|rows|] == row;
    assert row in rows';
    FirstOfFinds(rows, row.name);
    forall r | r in rows' ensures r.name in after { if r != row { assert r in rows; } }
    forall k | k in after
      ensures && after[k].0 == Generic(maxId, compactPrev, after[k].0.row)
              && after[k].0.row.name == k
              && IsNewestIn(rows', after[k].0.row)
              && after[k].1 == Visible(rows', k, flag)
    {
      if k in before {
        assert before[k].0.row in rows';
        assert FirstOf(rows, k).Some? by { FirstOfFinds(rows, k); }
      }
    }
  }

  /** For every name, the sample that arrived first and the newest one agree on being deleted. */
  ghost predicate FirstAgrees(rows: seq<Row>) {
    forall r :: r in rows && IsNewestIn(rows, r) ==>
      FirstOf(rows, r.name).Some? && FirstOf(rows, r.name).value.deleted == r.deleted
  }

  /** The cache's selected samples are the selected rows of the table, in whatever order. */
  ghost predicate Holds(rows: seq<Row>, t: seq<Row>, sel: Selection) {
    forall r :: r in rows <==> r in t && Selects(sel, r)
  }

  /** With anything but "f" the engine's answer is the SQL list, regardless of the order of arrival. */
  lemma AnswerIsSqlList(result: seq<Generic>, rows: seq<Row>, t: seq<Row>, sel: Selection, maxId: int,
                        compactPrev: int, flag: string)
    requires WellFormed(t) && Holds(rows, t, sel) && flag != "f"
    requires Answers(result, rows, maxId, compactPrev, flag)
    ensures Rows(result) == SqlList(t, sel, true)
  {
    forall r ensures r in Rows(result) <==> Shown(t, sel, true, r) {
      RowsMembers(result, r);
      assert Generic(maxId, compactPrev, r) in result <==> IsNewestIn(rows, r);
      if IsNewestIn(rows, r) || GroupMax(t, sel, r) { assert r in rows; }
    }
    SqlListUnique(t, sel, true, Rows(result));
  }

  /** With "f" it is the SQL list exactly when first and newest samples agree on being deleted. */
  lemma LiveAnswerIsSqlListIff(result: seq<Generic>, rows: seq<Row>, t: seq<Row>, sel: Selection, maxId: int,
                               compactPrev: int)
    requires WellFormed(t) && Holds(rows, t, sel)
    requires Answers(result, rows, maxId, compactPrev, "f")
    ensures Rows(result) == SqlList(t, sel, false) <==> FirstAgrees(rows)
  {
    forall r ensures r in Rows(result) <==> IsNewestIn(rows, r) && Visible(rows, r.name, "f") {
      RowsMembers(result, r);
      assert Generic(maxId, compactPrev, r) in result <==> IsNewestIn(rows, r) && Visible(rows, r.name, "f");
    }
    forall r ensures Shown(t, sel, false, r) <==> IsNewestIn(rows, r) && !r.deleted {
      if IsNewestIn(rows, r) || GroupMax(t, sel, r) { assert r in rows; }
    }
    SqlListShows(t, sel, false);
    if FirstAgrees(rows) {
      SqlListUnique(t, sel, false, Rows(result));
    } else {
      var r :| r in rows && IsNewestIn(rows, r)
               && !(FirstOf(rows, r.name).Some? && FirstOf(rows, r.name).value.deleted == r.deleted);
      FirstOfFinds(rows, r.name);
      assert r in Rows(result) <==> r !in SqlList(t, sel, false);
    }
  }

  lemma {:induction false} FirstOfHead(r: Row, rows: seq<Row>)
    ensures FirstOf([r] + rows, r.name) == Some(r)
  {
    var all := [r] + rows;
    if rows != [] {
      FirstOfHead(r, rows[..|rows| - 1]);
      assert all[..|all| - 1] == [r] + rows[..|rows| - 1];
    } else {
      assert all[..0] == [];
    }
  }

  ghost predicate Distinct(rows: seq<Row>) {
    forall i, j :: 0 <= i < j < |rows| ==> rows[i] != rows[j]
  }

  /** An order in which the selected rows can arrive: each of them once. */
  ghost predicate Arrives(rows: seq<Row>, t: seq<Row>, sel: Selection) {
    Holds(rows, t, sel) && Distinct(rows)
  }

  ghost predicate OneKindPerName(t: seq<Row>, sel: Selection) {
    forall x, y :: x in t && y in t && Selects(sel, x) && Selects(sel, y) && x.name == y.name ==> x.deleted == y.deleted
  }

  lemma OneKindAgrees(t: seq<Row>, sel: Selection, rows: seq<Row>)
    requires OneKindPerName(t, sel) && Holds(rows, t, sel)
    ensures FirstAgrees(rows)
  {
    forall r | r in rows && IsNewestIn(rows, r)
      ensures FirstOf(rows, r.name).Some? && FirstOf(rows, r.name).value.deleted == r.deleted
    {
      FirstOfFinds(rows, r.name);
    }
  }

  /** The selected rows with one of them moved to the front. */
  lemma ArrivesFirst(t: seq<Row>, sel: Selection, first: Row) returns (rows: seq<Row>)
    requires WellFormed(t) && first in t && Selects(sel, first)
    ensures Arrives(rows, t, sel) && FirstOf(rows, first.name) == Some(first)
  {
    var others := Filter(t, r => Selects(sel, r) && r != first);
    FilterAscending(t, r => Selects(sel, r) && r != first);
    rows := [first] + others;
    FirstOfHead(first, others);
    forall r ensures r in rows <==> r in t && Selects(sel, r) {
      assert r in rows <==> r == first || r in others;
    }
    forall i, j | 0 <= i < j < |rows| ensures rows[i] != rows[j] {
      assert rows[j] == others[j - 1] && others[j - 1] in others;
      if 0 < i { assert rows[i] == others[i - 1] && others[i - 1].id < others[j - 1].id; }
    }
  }

  lemma WrongOrder(t: seq<Row>, sel: Selection, x: Row, y: Row) returns (rows: seq<Row>)
    requires WellFormed(t) && x in t && y in t && Selects(sel, x) && Selects(sel, y)
    requires x.name == y.name && x.deleted != y.deleted
    ensures Arrives(rows, t, sel) && !FirstAgrees(rows)
  {
    var g := GroupOf(t, sel, x);
    rows := ArrivesFirst(t, sel, if x.deleted != g.deleted then x else y);
    assert g in rows && IsNewestIn(rows, g);
  }

  /** The answer with "f" is right in every order of arrival exactly when no name has selected rows of both kinds. */
  lemma OrderProofIff(t: seq<Row>, sel: Selection)
    requires WellFormed(t)
    ensures (forall rows :: Arrives(rows, t, sel) ==> FirstAgrees(rows)) <==> OneKindPerName(t, sel)
  {
    if OneKindPerName(t, sel) {
      forall rows | Arrives(rows, t, sel) ensures FirstAgrees(rows) { OneKindAgrees(t, sel, rows); }
    } else {
      var x, y :| x in t && y in t && Selects(sel, x) && Selects(sel, y) && x.name == y.name && x.deleted != y.deleted;
      var rows := WrongOrder(t, sel, x, y);
    }
  }

  lemma RowsMembers(s: seq<Generic>, r: Row)
    ensures r in Rows(s) <==> exists g :: g in s && g.row == r
  {
    if r in Rows(s) {
      var i :| 0 <= i < |Rows(s)| && Rows(s)[i] == r;
      assert s[i] in s;
    }
    if g :| g in s && g.row == r {
      var i :| 0 <= i < |s| && s[i] == g;
      assert Rows(s)[i] == r;
    }
  }

  /* The queries: filter the reader's cache, group, cut to the limit. */

  /** The reader's cache holds the table: every row as a valid sample, in order of arrival. */
  ghost predicate Caches(reader: seq<Sample>, t: seq<Row>) {
    WellFormed(t) && forall r {:trigger r in ValidRows(reader)} :: r in ValidRows(reader) <==> r in t
  }

  /** The query conditions' filters, with their parameters. */
  datatype Condition =
    | FilterQuery01(pattern: Key, rev: int)
    | FilterQuery04(pattern: Key)
    | FilterQuery09Start(start: Key, rev: int)
    | FilterQuery09(pattern: Key, rev: int, theId: int)
    | FilterQuery11(pattern: Key, rev: int)

  predicate Passes(c: Condition, r: Row) {
    match c
    case FilterQuery01(pattern, rev) => DdsMatches(pattern, r.name) && r.id > rev
    case FilterQuery04(pattern) => DdsMatches(pattern, r.name)
    case FilterQuery09Start(start, rev) => r.name == start && r.id <= rev
    case FilterQuery09(pattern, rev, theId) => DdsMatches(pattern, r.name) && r.id <= rev && r.id > theId
    case FilterQuery11(pattern, rev) => DdsMatches(pattern, r.name) && r.id <= rev
  }

  /** dds_read with a query condition. */
  function Read(reader: seq<Sample>, condition: Condition): seq<Sample> {
    Filter(reader, (s: Sample) => Passes(condition, s.row))
  }

  lemma {:induction false} ReadRows(reader: seq<Sample>, condition: Condition, r: Row)
    ensures r in ValidRows(Read(reader, condition)) <==> r in ValidRows(reader) && Passes(condition, r)
  {
    if reader != [] {
      var front, last := reader[..|reader| - 1], reader[|reader| - 1];
      ReadRows(front, condition, r);
      if Passes(condition, last.row) {
        assert Read(reader, condition) == Read(front, condition) + [last];
        assert (Read(front, condition) + [last])[..|Read(front, condition)|] == Read(front, condition);
      } else {
        assert Read(reader, condition) == Read(front, condition);
      }
    }
  }

  lemma ReadHolds(reader: seq<Sample>, t: seq<Row>, condition: Condition, sel: Selection)
    requires Caches(reader, t)
    requires forall r :: r in t ==> (Passes(condition, r) <==> Selects(sel, r))
    ensures Holds(ValidRows(Read(reader, condition)), t, sel)
    ensures UniqueIds(ValidRows(Read(reader, condition)))
  {
    forall r ensures r in ValidRows(Read(reader, condition)) <==> r in t && Selects(sel, r) {
      ReadRows(reader, condition, r);
    }
    forall x, y | x in t && y in t && x.id == y.id ensures x == y { SameIdSameRow(t, x, y); }
  }

  /** Every row of an answer carries the two common columns. */
  ghost predicate Carry(result: seq<Generic>, maxId: int, compactPrev: int) {
    forall g :: g in result ==> g.maxId == maxId && g.compactPrev == compactPrev
  }

  /** The rows the engine shows: of the newest row per name, those whose name the flag lets through. */
  function ShownBy(rows: seq<Row>, t: seq<Row>, sel: Selection, flag: string): seq<Row> {
    Filter(SqlList(t, sel, true), (r: Row) => Visible(rows, r.name, flag))
  }

  /** What an answer holds, and how it relates to the SQL list over the same selection, for either flag. */
  ghost predicate Conforms(result: seq<Row>, rows: seq<Row>, t: seq<Row>, sel: Selection, limit: int, flag: string) {
    && result == Limit(ShownBy(rows, t, sel, flag), limit)
    && (flag != "f" ==> result == Limit(SqlList(t, sel, true), limit))
    && (flag == "f" && FirstAgrees(rows) ==> result == Limit(SqlList(t, sel, false), limit))
    && (flag == "f" && limit <= 0 ==> (result == SqlList(t, sel, false) <==> FirstAgrees(rows)))
  }

  lemma ShowsMembers(rows: seq<Row>, t: seq<Row>, sel: Selection, flag: string)
    requires WellFormed(t) && Holds(rows, t, sel)
    ensures Ascending(ShownBy(rows, t, sel, flag))
    ensures forall r {:trigger r in ShownBy(rows, t, sel, flag)} ::
              r in ShownBy(rows, t, sel, flag) <==> IsNewestIn(rows, r) && Visible(rows, r.name, flag)
  {
    SqlListShows(t, sel, true);
    FilterAscending(SqlList(t, sel, true), (r: Row) => Visible(rows, r.name, flag));
    forall r ensures Shown(t, sel, true, r) <==> IsNewestIn(rows, r) {
      if IsNewestIn(rows, r) || GroupMax(t, sel, r) { assert r in rows; }
    }
  }

  lemma AnswerShows(result: seq<Generic>, rows: seq<Row>, t: seq<Row>, sel: Selection, maxId: int, compactPrev: int,
                    flag: string)
    requires WellFormed(t) && Holds(rows, t, sel) && Answers(result, rows, maxId, compactPrev, flag)
    ensures Rows(result) == ShownBy(rows, t, sel, flag)
  {
    ShowsMembers(rows, t, sel, flag);
    forall r ensures r in Rows(result) <==> r in ShownBy(rows, t, sel, flag) {
      RowsMembers(result, r);
      assert Generic(maxId, compactPrev, r) in result <==> IsNewestIn(rows, r) && Visible(rows, r.name, flag);
    }
    SameRowsSameSeq(Rows(result), ShownBy(rows, t, sel, flag));
  }

  lemma AnswerConforms(full: seq<Generic>, rows: seq<Row>, t: seq<Row>, sel: Selection, limit: int,
                       maxId: int, compactPrev: int, flag: string)
    requires WellFormed(t) && Holds(rows, t, sel) && Answers(full, rows, maxId, compactPrev, flag)
    ensures Conforms(Rows(Limit(full, limit)), rows, t, sel, limit, flag)
  {
    assert Rows(Limit(full, limit)) == Limit(Rows(full), limit);
    AnswerShows(full, rows, t, sel, maxId, compactPrev, flag);
    if flag == "f" {
      LiveAnswerIsSqlListIff(full, rows, t, sel, maxId, compactPrev);
    } else {
      AnswerIsSqlList(full, rows, t, sel, maxId, compactPrev, flag);
    }
  }

  lemma NothingAnswers(maxId: int, compactPrev: int, flag: string)
    ensures Answers([], [], maxId, compactPrev, flag)
  {}

  method GroupAndLimit(samples: seq<Sample>, limit: int, maxId: int, compactPrev: int, flag: string,
                       ghost t: seq<Row>, ghost sel: Selection)
    returns (result: seq<Generic>)
    requires WellFormed(t) && Holds(ValidRows(samples), t, sel) && UniqueIds(ValidRows(samples))
    ensures Conforms(Rows(result), ValidRows(samples), t, sel, limit, flag)
    ensures Carry(result, maxId, compactPrev)
  {
    NothingAnswers(maxId, compactPrev, flag);
    var full := [];
    if 0 < |samples| {
      full := QueryCommonSubquery(samples, maxId, compactPrev, flag);
    }
    AnswerConforms(full, ValidRows(samples), t, sel, limit, maxId, compactPrev, flag);
    CommonFields(full, ValidRows(samples), limit, maxId, compactPrev, flag);
    result := full;
    if 0 < limit && limit < |result| {
      result := result[..limit];
    }
    assert result == Limit(full, limit);
  }

  lemma CarryPrefix(s: seq<Generic>, n: nat, maxId: int, compactPrev: int)
    requires n <= |s| && Carry(s, maxId, compactPrev)
    ensures Carry(s[..n], maxId, compactPrev)
  {
    forall g | g in s[..n] ensures g in s {}
  }

  lemma CommonFields(full: seq<Generic>, rows: seq<Row>, limit: int, maxId: int, compactPrev: int, flag: string)
    requires Answers(full, rows, maxId, compactPrev, flag)
    ensures Carry(Limit(full, limit), maxId, compactPrev)
  {
    forall g | g in Limit(full, limit) ensures g in full {}
  }

  /** ListCurrent. */
  method Query04(reader: seq<Sample>, ghost t: seq<Row>, limit: int, pattern: Key, flag: string, maxId: int,
                 compactPrev: int)
    returns (result: seq<Generic>)
    requires Caches(reader, t)
    ensures Conforms(Rows(result), ValidRows(Read(reader, FilterQuery04(pattern))), t,
                     Selection(DdsFilter, pattern, 0, MaxId(t)), limit, flag)
    ensures Carry(result, maxId, compactPrev)
  {
    var condition := FilterQuery04(pattern);
    forall r | r in t ensures r.id <= MaxId(t) { MaxIdBounds(t, r); }
    ghost var sel := Selection(DdsFilter, pattern, 0, MaxId(t));
    ReadHolds(reader, t, condition, sel);
    result := GroupAndLimit(Read(reader, condition), limit, maxId, compactPrev, flag, t, sel);
  }

  /**
   Counting under a prefix, through all layers: query 3 pairs the maximum id with the number of rows of query 4, under
   a flag in quotes of its own that lets tombstones count; the driver returns that pair the other way round, and the
   backend reads it as revision and count. So the revision told is a number of names, and the count told is the
   maximum id.
   */
  method CountUnder(reader: seq<Sample>, ghost t: seq<Row>, maximumMessages: int, prefix: Key, maxId: int,
                    compactPrev: int)
    returns (revision: int, count: int)
    requires Caches(reader, t) && maxId != 0
    ensures revision == |Limit(SqlList(t, Selection(DdsFilter, PatternOf(prefix), 0, MaxId(t)), true), maximumMessages)|
    ensures count == maxId
  {
    var rows := Query04(reader, t, maximumMessages, PatternOf(prefix), "'f'", maxId, compactPrev);
    assert |Rows(rows)| == |rows|;
    var query3Id, query3Count := maxId, |rows|;
    revision, count := query3Count, query3Id;
  }

  /** List at a revision. */
  method Query11(reader: seq<Sample>, ghost t: seq<Row>, limit: int, pattern: Key, rev: int, flag: string, maxId: int,
                 compactPrev: int)
    returns (result: seq<Generic>)
    requires Caches(reader, t)
    ensures Conforms(Rows(result), ValidRows(Read(reader, FilterQuery11(pattern, rev))), t,
                     Selection(DdsFilter, pattern, 0, rev), limit, flag)
    ensures Carry(result, maxId, compactPrev)
  {
    var condition := FilterQuery11(pattern, rev);
    ghost var sel := Selection(DdsFilter, pattern, 0, rev);
    ReadHolds(reader, t, condition, sel);
    result := GroupAndLimit(Read(reader, condition), limit, maxId, compactPrev, flag, t, sel);
  }

  /** The id a continued list starts after: the start key's newest row at or below the revision, or 0. */
  function StartId(t: seq<Row>, start: Key, rev: int): int {
    match Latest(t, start, rev)
    case None => 0
    case Some(s) => s.id
  }

  /** The first subquery of query 9: a running maximum over the start key's samples. */
  method MaxIdOfKey(reader: seq<Sample>, ghost t: seq<Row>, start: Key, rev: int) returns (max: int)
    requires Caches(reader, t)
    ensures max == StartId(t, start, rev)
    ensures forall r :: r in t && r.name == start && r.id <= rev ==> r.id <= max
    ensures max == 0 || exists r :: r in t && r.name == start && r.id <= rev && r.id == max
  {
    var samples := Read(reader, FilterQuery09Start(start, rev));
    max := 0;
    var theId := 0;
    assert ValidRows(samples[..0]) == [];
    for i := 0 to |samples|
      invariant max == theId && 0 <= max
      invariant forall r :: r in ValidRows(samples[..i]) ==> r.id <= max
      invariant max == 0 || exists r :: r in ValidRows(samples[..i]) && r.id == max
    {
      assert samples[..i + 1][..i] == samples[..i];
      assert ValidRows(samples[..i + 1])
          == ValidRows(samples[..i]) + if samples[i].validData then [samples[i].row] else [];
      if samples[i].validData {
        if samples[i].row.id > max {
          max := samples[i].row.id;
          theId := max;
        }
      }
    }
    assert samples[..|samples|] == samples;
    LatestIsLatest(t, start, rev);
    forall r ensures r in ValidRows(samples) <==> r in t && r.name == start && r.id <= rev {
      ReadRows(reader, FilterQuery09Start(start, rev), r);
    }
    max := theId;
  }

  /** List after a start key. */
  method Query09(reader: seq<Sample>, ghost t: seq<Row>, limit: int, pattern: Key, rev: int, start: Key, startRev: int,
                 flag: string, maxId: int, compactPrev: int)
    returns (result: seq<Generic>)
    requires Caches(reader, t)
    ensures Conforms(Rows(result),
                     ValidRows(Read(reader, FilterQuery09(pattern, rev, StartId(t, start, startRev)))), t,
                     Selection(DdsFilter, pattern, StartId(t, start, startRev), rev), limit, flag)
    ensures Carry(result, maxId, compactPrev)
  {
    var theId := MaxIdOfKey(reader, t, start, startRev);
    var condition := FilterQuery09(pattern, rev, theId);
    ghost var sel := Selection(DdsFilter, pattern, theId, rev);
    ReadHolds(reader, t, condition, sel);
    result := GroupAndLimit(Read(reader, condition), limit, maxId, compactPrev, flag, t, sel);
  }

  /** The rows behind a watch, ordered by id, cut to the limit. The cache holds each row once. */
  method Query01(reader: seq<Sample>, ghost t: seq<Row>, limit: int, pattern: Key, rev: int, maxId: int,
                 compactPrev: int)
    returns (result: seq<Generic>)
    requires Caches(reader, t)
    requires Distinct(ValidRows(reader))
    ensures Rows(result) == Limit(After(t, DdsFilter, pattern, rev), limit)
    ensures Carry(result, maxId, compactPrev)
  {
    var condition := FilterQuery01(pattern, rev);
    var samples := Read(reader, condition);
    result := [];
    assert ValidRows(samples[..0]) == [];
    for i := 0 to |samples|
      invariant Rows(result) == ValidRows(samples[..i])
      invariant Carry(result, maxId, compactPrev)
    {
      assert samples[..i + 1][..i] == samples[..i];
      assert ValidRows(samples[..i + 1])
          == ValidRows(samples[..i]) + if samples[i].validData then [samples[i].row] else [];
      if samples[i].validData {
        assert Rows(result + [Generic(maxId, compactPrev, samples[i].row)]) == Rows(result) + [samples[i].row];
        result := result + [Generic(maxId, compactPrev, samples[i].row)];
      }
    }
    assert samples[..|samples|] == samples;
    SortedRows(result, reader, t, condition, maxId, compactPrev);
    result := Sort(result);
    FilterAscending(t, (r: Row) => rev < r.id && MatchesPattern(DdsFilter, pattern, r.name));
    SameRowsSameSeq(Rows(result), After(t, DdsFilter, pattern, rev));
    if 0 < limit && limit < |result| {
      assert Rows(result[..limit]) == Rows(result)[..limit];
      CarryPrefix(result, limit, maxId, compactPrev);
      result := result[..limit];
    }
  }

  lemma {:induction false} ReadKeepsDistinct(reader: seq<Sample>, condition: Condition)
    requires Distinct(ValidRows(reader))
    ensures Distinct(ValidRows(Read(reader, condition)))
  {
    if reader != [] {
      var front, last := reader[..|reader| - 1], reader[|reader| - 1];
      assert ValidRows(reader) == ValidRows(front) + if last.validData then [last.row] else [];
      assert forall i :: 0 <= i < |ValidRows(front)| ==> ValidRows(reader)[i] == ValidRows(front)[i];
      ReadKeepsDistinct(front, condition);
      ReadRows(front, condition, last.row);
      var read := Read(front, condition);
      if Passes(condition, last.row) {
        assert Read(reader, condition) == read + [last];
        assert (read + [last])[..|read|] == read;
        assert ValidRows(read + [last]) == ValidRows(read) + if last.validData then [last.row] else [];
        if last.validData {
          assert ValidRows(reader)[|ValidRows(front)|] == last.row;
          assert last.row !in ValidRows(front);
        }
      } else {
        assert Read(reader, condition) == read;
      }
    }
  }

  lemma SortedRows(collected: seq<Generic>, reader: seq<Sample>, t: seq<Row>, condition: Condition, maxId: int,
                   compactPrev: int)
    requires Caches(reader, t) && Rows(collected) == ValidRows(Read(reader, condition))
    requires Distinct(ValidRows(reader))
    requires Carry(collected, maxId, compactPrev)
    ensures Ascending(Rows(Sort(collected)))
    ensures Carry(Sort(collected), maxId, compactPrev)
    ensures forall r :: r in Rows(Sort(collected)) <==> r in t && Passes(condition, r)
  {
    var rows := Rows(collected);
    ReadKeepsDistinct(reader, condition);
    forall r ensures r in rows <==> r in t && Passes(condition, r) { ReadRows(reader, condition, r); }
    forall i, j | 0 <= i < j < |collected| ensures collected[i].row.id != collected[j].row.id {
      assert collected[i] in collected && collected[j] in collected;
      assert rows[i] == collected[i].row && rows[j] == collected[j].row && rows[i] in rows && rows[j] in rows;
      if rows[i].id == rows[j].id { SameIdSameRow(t, rows[i], rows[j]); }
    }
    assert forall i :: 0 <= i < |collected| ==> collected[i] in collected;
    SortSorts(collected, maxId, compactPrev);
    forall r ensures r in Rows(Sort(collected)) <==> r in rows {
      RowsMembers(Sort(collected), r);
      RowsMembers(collected, r);
    }
  }

  /** A continued list is the full list cut at the start id, whatever the matcher. */
  lemma Query09IsSuffixOfQuery11(t: seq<Row>, pattern: Key, rev: int, start: Key)
    requires WellFormed(t)
    ensures SqlList(t, Selection(DdsFilter, pattern, StartId(t, start, rev), rev), true)
         == Filter(SqlList(t, Selection(DdsFilter, pattern, 0, rev), true), (r: Row) => StartId(t, start, rev) < r.id)
    ensures Latest(t, start, rev).None? ==>
              (SqlList(t, Selection(DdsFilter, pattern, StartId(t, start, rev), rev), true)
               == SqlList(t, Selection(DdsFilter, pattern, 0, rev), true))
  {
    LatestIsLatest(t, start, rev);
    CutBeforeGroupIsCutAfter(t, DdsFilter, pattern, StartId(t, start, rev), rev, true);
  }

  /** For names with a newest row above `lo`, the first sample of all and the first one above `lo` are of one kind. */
  ghost predicate CutAgrees(all: seq<Row>, cut: seq<Row>, lo: int) {
    forall r :: r in all && IsNewestIn(all, r) && lo < r.id ==>
      && FirstOf(all, r.name).Some? && FirstOf(cut, r.name).Some?
      && FirstOf(all, r.name).value.deleted == FirstOf(cut, r.name).value.deleted
  }

  /** With "f" cutting the samples before the grouping can change which of a name comes first. */
  lemma CutLiveListIff(all: seq<Row>, cut: seq<Row>, t: seq<Row>, pattern: Key, lo: int, rev: int)
    requires WellFormed(t) && 0 <= lo
    requires Holds(all, t, Selection(DdsFilter, pattern, 0, rev))
    requires Holds(cut, t, Selection(DdsFilter, pattern, lo, rev))
    ensures ShownBy(cut, t, Selection(DdsFilter, pattern, lo, rev), "f")
         == Filter(ShownBy(all, t, Selection(DdsFilter, pattern, 0, rev), "f"), (r: Row) => lo < r.id)
         <==> CutAgrees(all, cut, lo)
  {
    var whole, part := Selection(DdsFilter, pattern, 0, rev), Selection(DdsFilter, pattern, lo, rev);
    var engine := ShownBy(cut, t, part, "f");
    var suffix := Filter(ShownBy(all, t, whole, "f"), (r: Row) => lo < r.id);
    ShowsMembers(cut, t, part, "f");
    ShowsMembers(all, t, whole, "f");
    FilterAscending(ShownBy(all, t, whole, "f"), (r: Row) => lo < r.id);
    forall r: Row ensures lo < r.id ==> (IsNewestIn(cut, r) <==> IsNewestIn(all, r)) {
      NewestAboveCut(all, cut, t, pattern, lo, rev, r);
    }
    if CutAgrees(all, cut, lo) {
      SameRowsSameSeq(engine, suffix);
    } else {
      var r :| r in all && IsNewestIn(all, r) && lo < r.id && !(FirstOf(all, r.name).Some? && FirstOf(cut, r.name).Some?
               && FirstOf(all, r.name).value.deleted == FirstOf(cut, r.name).value.deleted);
      FirstOfFinds(all, r.name);
      FirstOfFinds(cut, r.name);
      assert IsNewestIn(cut, r);
      assert r in engine <==> r !in suffix;
    }
  }

  lemma NewestAboveCut(all: seq<Row>, cut: seq<Row>, t: seq<Row>, pattern: Key, lo: int, rev: int, r: Row)
    requires 0 <= lo && WellFormed(t)
    requires Holds(all, t, Selection(DdsFilter, pattern, 0, rev))
    requires Holds(cut, t, Selection(DdsFilter, pattern, lo, rev))
    ensures lo < r.id ==> (IsNewestIn(cut, r) <==> IsNewestIn(all, r))
    ensures IsNewestIn(cut, r) ==> lo < r.id
  {
    forall x ensures x in cut <==> x in all && lo < x.id {}
  }

  /** Query 9 with "f" on one reader: the suffix of query 11's answer exactly under that condition. */
  lemma LiveQuery09Iff(reader: seq<Sample>, t: seq<Row>, pattern: Key, rev: int, start: Key)
    requires Caches(reader, t)
    ensures var lo := StartId(t, start, rev);
            var all := ValidRows(Read(reader, FilterQuery11(pattern, rev)));
            var cut := ValidRows(Read(reader, FilterQuery09(pattern, rev, lo)));
            ShownBy(cut, t, Selection(DdsFilter, pattern, lo, rev), "f")
            == Filter(ShownBy(all, t, Selection(DdsFilter, pattern, 0, rev), "f"), (r: Row) => lo < r.id)
            <==> CutAgrees(all, cut, lo)
  {
    var lo := StartId(t, start, rev);
    LatestIsLatest(t, start, rev);
    ReadHolds(reader, t, FilterQuery11(pattern, rev), Selection(DdsFilter, pattern, 0, rev));
    ReadHolds(reader, t, FilterQuery09(pattern, rev, lo), Selection(DdsFilter, pattern, lo, rev));
    CutLiveListIff(ValidRows(Read(reader, FilterQuery11(pattern, rev))),
                   ValidRows(Read(reader, FilterQuery09(pattern, rev, lo))), t, pattern, lo, rev);
  }

  /**
   Continuing after a key without a row: SQL compares with NULL and returns nothing, the engine starts over. They agree
   exactly when nothing is selected, or with "f" when the first sample of every selected name hides it.
   */
  lemma MissingStartKey(rows: seq<Row>, t: seq<Row>, pattern: Key, rev: int, start: Key, flag: string)
    requires WellFormed(t) && Latest(t, start, rev).None?
    requires Holds(rows, t, Selection(DdsFilter, pattern, StartId(t, start, rev), rev))
    ensures ShownBy(rows, t, Selection(DdsFilter, pattern, StartId(t, start, rev), rev), flag)
         == ListAfterKey(t, pattern, rev, start, flag != "f")
         <==> forall r :: r in t && r.id <= rev && DdsMatches(pattern, r.name) ==>
                flag == "f" && FirstOf(rows, r.name).Some? && FirstOf(rows, r.name).value.deleted
  {
    var sel := Selection(DdsFilter, pattern, 0, rev);
    var list := ShownBy(rows, t, sel, flag);
    ShowsMembers(rows, t, sel, flag);
    assert |list| > 0 ==> list[0] in list;
    forall r | r in rows ensures FirstOf(rows, r.name).Some? { FirstOfFinds(rows, r.name); }
    if r :| r in rows && !(flag == "f" && FirstOf(rows, r.name).value.deleted) {
      var g := GroupOf(t, sel, r);
      assert g in rows && IsNewestIn(rows, g);
      assert g in list;
    } else {
      assert forall r: Row :: r in list ==> r in rows;
      assert list == [];
    }
  }
}
