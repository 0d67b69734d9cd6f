/**
 The `kine` table shared by every part of the project: its rows, the order it is kept in,
 and the one read all operations are built from, "the newest row of a key at or below a revision".

 Go strings and C++ std::strings are byte strings, so keys and values are sequences of bytes.
 */
module Tables {

  type Byte = b: int | 0 <= b < 256
  type Bytes = seq<Byte>
  type Key = Bytes

  datatype Option<+T> = None | Some(value: T)

  /** One row of the table; `created` and `deleted` stand for the columns being non-zero. */
  datatype Row = Row(id: int, name: Key, created: bool, deleted: bool, createRev: int,
                     prevRev: int, lease: int, value: Bytes, oldValue: Bytes)

  /** A row as clients see it: the create revision of a creating row is its own id. */
  datatype KeyValue = KeyValue(key: Key, createRev: int, modRev: int, value: Bytes, lease: int)

  /** The key under which the store itself records its compact revision. */
  const COMPACT_KEY: Key := // "compact_rev_key"
    [99, 111, 109, 112, 97, 99, 116, 95, 114, 101, 118, 95, 107, 101, 121]

  const SLASH: Byte := 47

  /** Byte strings in order, as C++ and Go compare them. */
  predicate LessBytes(a: Bytes, b: Bytes)
    decreases |a|
  {
    if b == [] then false
    else if a == [] then true
    else a[0] < b[0] || (a[0] == b[0] && LessBytes(a[1..], b[1..]))
  }

  /** Of two byte strings exactly one comes first, unless they are the same. */
  lemma {:induction false} BytesAreOrdered(a: Bytes, b: Bytes)
    ensures LessBytes(a, b) != LessBytes(b, a) <==> a != b
    ensures !(LessBytes(a, b) && LessBytes(b, a))
    decreases |a|
  {
    if a == [] || b == [] {
      assert a == b <==> a == [] && b == [];
    } else {
      BytesAreOrdered(a[1..], b[1..]);
      assert a == [a[0]] + a[1..] && b == [b[0]] + b[1..];
      assert a == b <==> a[0] == b[0] && a[1..] == b[1..];
    }
  }

  /** The strings that start with `p` are those from `p` up to `p` with its last byte incremented. */
  lemma {:induction false} PrefixInterval(p: Bytes, k: Bytes)
    requires p != [] && p[|p| - 1] < 255
    ensures !LessBytes(k, p) && LessBytes(k, p[..|p| - 1] + [p[|p| - 1] + 1]) <==> p <= k
    decreases |p|
  {
    var end := p[..|p| - 1] + [p[|p| - 1] + 1];
    if |p| == 1 {
      assert end == [p[0] + 1] && p[1..] == [] && end[1..] == [];
      if k != [] {
        assert k == [k[0]] + k[1..] && p == [p[0]];
        assert LessBytes(k, p) <==> k[0] < p[0];
        assert LessBytes(k, end) <==> k[0] <= p[0];
      }
    } else if k != [] {
      PrefixInterval(p[1..], k[1..]);
      assert p[1..][|p| - 2] == p[|p| - 1];
      assert end[1..] == p[1..][..|p| - 2] + [p[|p| - 1] + 1];
      assert p == [p[0]] + p[1..] && k == [k[0]] + k[1..];
    }
  }

  /** Rows that only fill a missing revision are named after it: "gap-" and the number. */
  const GAP: Key := [103, 97, 112, 45]

  predicate IsFill(name: Key) {
    GAP <= name
  }

  function Decimal(n: nat): Bytes {
    if n < 10 then [48 + n] else Decimal(n / 10) + [48 + n % 10]
  }

  function FillKey(id: nat): Key {
    GAP + Decimal(id)
  }

  /** A filler: deleted without ever having been created. */
  function Filler(id: nat): Row {
    Row(id, FillKey(id), false, true, 0, 0, 0, [], [])
  }

  /** The number that digits spell out. */
  function ReadDecimal(digits: Bytes): int {
    if digits == [] then 0 else ReadDecimal(digits[..|digits| - 1]) * 10 + (digits[|digits| - 1] as int - 48)
  }

  lemma {:induction false} DecimalReadsBack(n: nat)
    ensures ReadDecimal(Decimal(n)) == n
    ensures forall i :: 0 <= i < |Decimal(n)| ==> 48 <= Decimal(n)[i] < 58
  {
    if n < 10 {
      assert Decimal(n)[..0] == [];
    } else {
      DecimalReadsBack(n / 10);
      assert Decimal(n)[..|Decimal(n)| - 1] == Decimal(n / 10);
    }
  }

  /** Every revision has a filler name of its own. */
  lemma FillKeysDiffer(m: nat, n: nat)
    requires m != n
    ensures FillKey(m) != FillKey(n)
  {
    DecimalReadsBack(m);
    DecimalReadsBack(n);
    assert FillKey(m)[4..] == Decimal(m) && FillKey(n)[4..] == Decimal(n);
  }

  function KvOf(r: Row): KeyValue {
    KeyValue(r.name, if r.created then r.id else r.createRev, r.id, r.value, r.lease)
  }

  /** The table is kept in ascending order of its primary key. */
  ghost predicate Ascending(t: seq<Row>) {
    forall i, j :: 0 <= i < j < |t| ==> t[i].id < t[j].id
  }

  ghost predicate WellFormed(t: seq<Row>) {
    Ascending(t) && forall r :: r in t ==> 0 < r.id
  }

  /** MAX(id), or 0 for an empty table. */
  function MaxId(t: seq<Row>): int {
    if t == [] then 0 else t[|t| - 1].id
  }

  lemma MaxIdBounds(t: seq<Row>, r: Row)
    requires Ascending(t) && r in t
    ensures r.id <= MaxId(t)
  {
    var i :| 0 <= i < |t| && t[i] == r;
    assert i < |t| - 1 ==> t[i].id < t[|t| - 1].id;
  }

  lemma SameIdSameRow(t: seq<Row>, x: Row, y: Row)
    requires Ascending(t) && x in t && y in t && x.id == y.id
    ensures x == y
  {
    var i :| 0 <= i < |t| && t[i] == x;
    var j :| 0 <= j < |t| && t[j] == y;
  }

  lemma LastIsAbove(t: seq<Row>)
    requires Ascending(t) && t != []
    ensures forall r :: r in t <==> r in t[..|t| - 1] || r == t[|t| - 1]
    ensures forall r :: r in t[..|t| - 1] ==> r.id < t[|t| - 1].id
  {
    assert t == t[..|t| - 1] + [t[|t| - 1]];
  }

  lemma SameLast(s: seq<Row>, t: seq<Row>)
    requires Ascending(s) && Ascending(t) && s != [] && t != []
    requires forall r :: r in s <==> r in t
    ensures s[|s| - 1] == t[|t| - 1]
  {
    LastIsAbove(s);
    LastIsAbove(t);
    assert s[|s| - 1] in t && t[|t| - 1] in s;
  }

  lemma SameFront(s: seq<Row>, t: seq<Row>, s': seq<Row>, t': seq<Row>)
    requires Ascending(s) && Ascending(t) && s != [] && t != []
    requires forall r :: r in s <==> r in t
    requires s' == s[..|s| - 1] && t' == t[..|t| - 1]
    ensures forall r :: r in s' <==> r in t'
  {
    SameLast(s, t);
    LastIsAbove(s);
    LastIsAbove(t);
    forall r ensures r in s' <==> r in t' {
      assert r in s' <==> r in s && r != s[|s| - 1];
      assert r in t' <==> r in t && r != t[|t| - 1];
    }
  }

  /** An ascending sequence is determined by its elements. */
  lemma {:induction false} SameRowsSameSeq(s: seq<Row>, t: seq<Row>)
    requires Ascending(s) && Ascending(t)
    requires forall r :: r in s <==> r in t
    ensures s == t
  {
    assert |s| > 0 ==> s[0] in t;
    assert |t| > 0 ==> t[0] in s;
    if s != [] {
      var s', t' := s[..|s| - 1], t[..|t| - 1];
      SameLast(s, t);
      SameFront(s, t, s', t');
      SameRowsSameSeq(s', t');
      assert s == s' + [s[|s| - 1]] && t == t' + [t[|t| - 1]];
    }
  }

  function Filter<T(!new)>(s: seq<T>, keep: T -> bool): (r: seq<T>)
    ensures forall x {:trigger x in r} :: x in r <==> x in s && keep(x)
    ensures |r| <= |s|
  {
    if s == [] then []
    else
      var rest := Filter(s[..|s| - 1], keep);
      assert s == s[..|s| - 1] + [s[|s| - 1]];
      if keep(s[|s| - 1]) then rest + [s[|s| - 1]] else rest
  }

  lemma {:induction false} FilterAscending(t: seq<Row>, keep: Row -> bool)
    requires Ascending(t)
    ensures Ascending(Filter(t, keep))
  {
    if t != [] {
      var front := t[..|t| - 1];
      LastIsAbove(t);
      FilterAscending(front, keep);
      assert forall r :: r in Filter(front, keep) ==> r.id < t[|t| - 1].id;
    }
  }

  lemma {:induction false} FilterConcat<T(!new)>(a: seq<T>, b: seq<T>, keep: T -> bool)
    ensures Filter(a + b, keep) == Filter(a, keep) + Filter(b, keep)
  {
    if b == [] {
      assert a + b == a;
    } else {
      FilterConcat(a, b[..|b| - 1], keep);
      assert (a + b)[..|a + b| - 1] == a + b[..|b| - 1];
    }
  }

  /** The newest row of key `k` whose id is at most `q`. */
  function Latest(t: seq<Row>, k: Key, q: int): Option<Row> {
    if t == [] then None
    else
      var r := t[|t| - 1];
      if r.name == k && r.id <= q then Some(r) else Latest(t[..|t| - 1], k, q)
  }

  /** What `Latest` means: the row of largest id among those of the key at or below the revision. */
  ghost predicate IsLatest(t: seq<Row>, k: Key, q: int, o: Option<Row>) {
    match o
    case None => forall r :: r in t && r.name == k ==> q < r.id
    case Some(x) =>
      && x in t && x.name == k && x.id <= q
      && forall r :: r in t && r.name == k && r.id <= q ==> r.id <= x.id
  }

  lemma {:induction false} LatestIsLatest(t: seq<Row>, k: Key, q: int)
    requires Ascending(t)
    ensures IsLatest(t, k, q, Latest(t, k, q))
  {
    if t != [] {
      LastIsAbove(t);
      LatestIsLatest(t[..|t| - 1], k, q);
    }
  }

  /** The description fixes the row, so any row that meets it is the one `Latest` returns. */
  lemma LatestUnique(t: seq<Row>, k: Key, q: int, o: Option<Row>)
    requires Ascending(t) && IsLatest(t, k, q, o)
    ensures Latest(t, k, q) == o
  {
    LatestIsLatest(t, k, q);
    if o.Some? && Latest(t, k, q).Some? {
      SameIdSameRow(t, o.value, Latest(t, k, q).value);
    }
  }

  /** The newest row of the key in the whole table. */
  function Newest(t: seq<Row>, k: Key): Option<Row> {
    Latest(t, k, MaxId(t))
  }

  lemma NewestIsNewest(t: seq<Row>, k: Key)
    requires Ascending(t)
    ensures match Newest(t, k)
            case None => forall r :: r in t ==> r.name != k
            case Some(x) => x in t && x.name == k && forall r :: r in t && r.name == k ==> r.id <= x.id
  {
    LatestIsLatest(t, k, MaxId(t));
    forall r | r in t ensures r.id <= MaxId(t) { MaxIdBounds(t, r); }
  }

  lemma NewestUnique(t: seq<Row>, k: Key, o: Option<Row>)
    requires Ascending(t)
    requires match o
             case None => forall r :: r in t ==> r.name != k
             case Some(x) => x in t && x.name == k && forall r :: r in t && r.name == k ==> r.id <= x.id
    ensures Newest(t, k) == o
  {
    forall r | r in t ensures r.id <= MaxId(t) { MaxIdBounds(t, r); }
    LatestUnique(t, k, MaxId(t), o);
  }

  /** A key is live when its newest row is not a tombstone. */
  function LiveRow(o: Option<Row>): Option<KeyValue> {
    if o.Some? && !o.value.deleted then Some(KvOf(o.value)) else None
  }

  function LookupAt(t: seq<Row>, k: Key, q: int): Option<KeyValue> {
    LiveRow(Latest(t, k, q))
  }

  function Lookup(t: seq<Row>, k: Key): Option<KeyValue> {
    LiveRow(Newest(t, k))
  }

  lemma AppendAscending(t: seq<Row>, r: Row)
    requires WellFormed(t) && MaxId(t) < r.id && 0 < r.id
    ensures WellFormed(t + [r]) && MaxId(t + [r]) == r.id
  {
    forall x | x in t ensures x.id < r.id { MaxIdBounds(t, x); }
  }

  /** Appending above every id makes the new row the newest of its key and moves no other key. */
  lemma NewestAfterAppend(t: seq<Row>, r: Row, k: Key)
    requires WellFormed(t) && MaxId(t) < r.id && 0 < r.id
    ensures Newest(t + [r], k) == if k == r.name then Some(r) else Newest(t, k)
  {
    AppendAscending(t, r);
    NewestIsNewest(t, k);
    forall x | x in t ensures x.id < r.id { MaxIdBounds(t, x); }
    NewestUnique(t + [r], k, if k == r.name then Some(r) else Newest(t, k));
  }

  /* Rows that take an id in the middle. */

  function InsertRow(t: seq<Row>, r: Row): seq<Row> {
    if t == [] || t[|t| - 1].id < r.id then t + [r]
    else InsertRow(t[..|t| - 1], r) + [t[|t| - 1]]
  }

  lemma {:induction false} InsertRowAdds(t: seq<Row>, r: Row)
    ensures forall x :: x in InsertRow(t, r) <==> x in t || x == r
  {
    if t != [] {
      InsertRowAdds(t[..|t| - 1], r);
      assert t == t[..|t| - 1] + [t[|t| - 1]];
    }
  }

  lemma {:induction false} InsertRowKeepsOrder(t: seq<Row>, r: Row)
    requires Ascending(t) && forall x :: x in t ==> x.id != r.id
    ensures Ascending(InsertRow(t, r))
  {
    if t != [] {
      LastIsAbove(t);
      if t[|t| - 1].id >= r.id {
        InsertRowKeepsOrder(t[..|t| - 1], r);
        InsertRowAdds(t[..|t| - 1], r);
        AscendingSnoc(InsertRow(t[..|t| - 1], r), t[|t| - 1]);
      } else {
        AscendingSnoc(t, r);
      }
    }
  }

  lemma AscendingSnoc(t: seq<Row>, r: Row)
    requires Ascending(t) && forall x :: x in t ==> x.id < r.id
    ensures Ascending(t + [r])
  {}

  /** One row more, of a revision that was free. */
  ghost predicate OneRowMore(t: seq<Row>, t': seq<Row>, r: Row) {
    && WellFormed(t) && WellFormed(t') && (forall x :: x in t ==> x.id != r.id)
    && forall x :: x in t' <==> x in t || x == r
  }

  lemma InsertRowKeeps(t: seq<Row>, r: Row)
    requires WellFormed(t) && 0 < r.id && forall x :: x in t ==> x.id != r.id
    ensures OneRowMore(t, InsertRow(t, r), r)
    ensures MaxId(InsertRow(t, r)) == if MaxId(t) < r.id then r.id else MaxId(t)
  {
    InsertRowAdds(t, r);
    InsertRowKeepsOrder(t, r);
  }

  /** It moves no other key, at no revision. */
  lemma LatestAfterInsert(t: seq<Row>, t': seq<Row>, r: Row, k: Key, q: int)
    requires OneRowMore(t, t', r) && k != r.name
    ensures Latest(t', k, q) == Latest(t, k, q)
  {
    LatestIsLatest(t, k, q);
    LatestUnique(t', k, q, Latest(t, k, q));
  }

  lemma NewestAfterInsert(t: seq<Row>, t': seq<Row>, r: Row, k: Key)
    requires OneRowMore(t, t', r) && forall x :: x in t ==> x.name != r.name
    ensures Newest(t', k) == if k == r.name then Some(r) else Newest(t, k)
  {
    NewestIsNewest(t, k);
    NewestUnique(t', k, if k == r.name then Some(r) else Newest(t, k));
  }
}
