/**
 Whole runs: which compactions keep compare-and-swap safe, exactly, and what every safe run amounts to.
 */
module Runs {
  import opened Tables
  import Compaction
  import opened SqlQueries
  import opened PointReads
  import opened Operations
  import opened LogStructuredStore
  import opened Protocol

  /**
   A compaction step that keeps the protocol safe: it removes neither the row that blocks a stale operation
   nor the tombstone over which a current Create is about to write.
   */
  predicate CompactSafe(s: State, r: int) {
    forall c :: c in s.flight && s.flight[c].op.key != COMPACT_KEY ==> SpareFor(s, r, s.flight[c])
  }

  predicate SpareFor(s: State, r: int, p: Pending) {
    if Current(s, p) then
      match Newest(s.table, p.op.key)
      case None => true
      case Some(n) => n.deleted ==> r < n.id
    else
      Clash(Compaction.Compact(s.table, r), p.row)
  }

  /** Two rows of a key never carry the same predecessor. */
  lemma ClashIsUnique(t: seq<Row>, x: Row, y: Row)
    requires WellFormed(t) && Compaction.Chained(t) && x in t && y in t
    requires x.name == y.name != COMPACT_KEY && x.prevRev == y.prevRev
    ensures x == y
  {
    assert Compaction.Linked(t, x) && Compaction.Linked(t, y);
    LatestIsLatest(t, x.name, x.id - 1);
    LatestIsLatest(t, y.name, y.id - 1);
    if x.id == y.id { SameIdSameRow(t, x, y); }
  }

  /** The newest row of a key after compaction. */
  lemma NewestAfterCompact(t: seq<Row>, r: int, k: Key)
    requires WellFormed(t) && Compaction.Chained(t) && k != COMPACT_KEY
    ensures Newest(Compaction.Compact(t, r), k) ==
            match Newest(t, k)
            case None => None
            case Some(n) => if n.deleted && n.id <= r then None else Some(n)
  {
    var q := if r < MaxId(t) then MaxId(t) else r;
    var t' := Compaction.Compact(t, r);
    Compaction.CompactKeeps(t, r);
    NewestIsNewest(t, k);
    forall x | x in t ensures x.id <= q { MaxIdBounds(t, x); }
    LatestUnique(t, k, q, Newest(t, k));
    NewestIsNewest(t', k);
    forall x | x in t' ensures x.id <= q { assert x in t; }
    LatestUnique(t', k, q, Newest(t', k));
    Compaction.LatestAfterCompact(t, r, k, q);
  }

  lemma PendingAfterCompact(s: State, r: int, p: Pending)
    requires Inv(s) && p.op.key != COMPACT_KEY && PendingOk(s, p) && SpareFor(s, r, p)
    ensures PendingOk(s.(table := Compaction.Compact(s.table, r)), p)
  {
    var s' := s.(table := Compaction.Compact(s.table, r));
    Compaction.CompactKeeps(s.table, r);
    NewestAfterCompact(s.table, r, p.op.key);
    if !Current(s, p) {
      var x :| x in s'.table && x.name == p.row.name && x.prevRev == p.row.prevRev;
      var y :| y in s.table && Blocks(y, p);
      ClashIsUnique(s.table, x, y);
    }
  }

  lemma CompactKeepsInv(s: State, r: int)
    requires Inv(s) && CompactSafe(s, r)
    ensures Inv(s.(table := Compaction.Compact(s.table, r)))
  {
    var s' := s.(table := Compaction.Compact(s.table, r));
    Compaction.CompactKeepsChains(s.table, r);
    Compaction.CompactKeeps(s.table, r);
    if s'.table != [] {
      assert s'.table[|s'.table| - 1] in s'.table;
      MaxIdBounds(s.table, s'.table[|s'.table| - 1]);
    }
    forall k | k != COMPACT_KEY ensures HistoryOk(s', k) {
      assert HistoryOk(s, k);
      NewestAfterCompact(s.table, r, k);
    }
    forall c | c in s'.flight && s'.flight[c].op.key != COMPACT_KEY ensures PendingOk(s', s'.flight[c]) {
      assert PendingOk(s, s.flight[c]) && SpareFor(s, r, s.flight[c]);
      PendingAfterCompact(s, r, s.flight[c]);
    }
  }

  /** What a compactor can promise by revisions: stay at or below every pending read, and below every tombstone read. */
  predicate BelowReads(s: State, r: int) {
    forall c :: c in s.flight && s.flight[c].op.key != COMPACT_KEY ==>
      var p := s.flight[c];
      r <= p.readRev && (p.seen.Some? && p.seen.value.deleted ==> r < p.seen.value.id)
  }

  lemma BelowReadsIsSafe(s: State, r: int)
    requires Inv(s) && BelowReads(s, r)
    ensures CompactSafe(s, r)
  {
    forall c | c in s.flight && s.flight[c].op.key != COMPACT_KEY ensures SpareFor(s, r, s.flight[c]) {
      var p := s.flight[c];
      assert PendingOk(s, p) && HistoryOk(s, p.op.key);
      if !Current(s, p) { StaleIsSpared(s, r, p); }
    }
  }

  /** Every pending operation read within the most recent revisions, which compaction leaves alone. */
  predicate ReadsAreRecent(s: State) {
    forall c :: c in s.flight && s.flight[c].op.key != COMPACT_KEY ==>
      s.counter - s.flight[c].readRev < COMPACT_MIN_RETAIN
  }

  /** A Create is about to write over the key's newest row, a tombstone at or below the target. */
  predicate StandsOnOldTombstone(s: State, p: Pending, r: int) {
    Current(s, p) && Newest(s.table, p.op.key).Some?
    && Newest(s.table, p.op.key).value.deleted && Newest(s.table, p.op.key).value.id <= r
  }

  /**
   With the target the compactor really uses and fewer than a thousand ids issued since any pending read, stale
   operations are always spared; what is left to avoid is a Create that has just read an old tombstone.
   */
  lemma RetainedCompactionIsSafeIff(s: State, target: int)
    requires Inv(s) && ReadsAreRecent(s)
    ensures var r := SafeCompactRev(target, MaxId(s.table));
            CompactSafe(s, r) <==>
            forall c :: c in s.flight && s.flight[c].op.key != COMPACT_KEY ==> !StandsOnOldTombstone(s, s.flight[c], r)
  {
    var r := SafeCompactRev(target, MaxId(s.table));
    forall c | c in s.flight && s.flight[c].op.key != COMPACT_KEY
      ensures SpareFor(s, r, s.flight[c]) <==> !StandsOnOldTombstone(s, s.flight[c], r)
    {
      if !Current(s, s.flight[c]) { StaleIsSpared(s, r, s.flight[c]); }
    }
  }

  /** The row that blocks a stale operation is younger than its read. */
  lemma StaleIsSpared(s: State, r: int, p: Pending)
    requires Inv(s) && p.op.key != COMPACT_KEY && PendingOk(s, p) && !Current(s, p)
    requires r <= p.readRev || r <= 0
    ensures SpareFor(s, r, p)
  {
    var y :| y in s.table && Blocks(y, p);
    Compaction.DoomedMeans(s.table, r, y);
    Compaction.CompactKeeps(s.table, r);
    assert y in Compaction.Compact(s.table, r);
  }

  /* Runs. */

  ghost predicate Legal(s: State, steps: seq<Step>)
    decreases |steps|
  {
    steps == [] || (Enabled(s, steps[0], true) && Legal(Next(s, steps[0], true), steps[1..]))
  }

  /** A stale append that the index lets through: a lost update or a double create. */
  ghost predicate StaleWin(s: State, step: Step) {
    && step.Append? && Enabled(s, step, true)
    && s.flight[step.client].op.key != COMPACT_KEY
    && !Current(s, s.flight[step.client])
    && !Clash(s.table, s.flight[step.client].row)
  }

  ghost predicate HasStaleWin(s: State, steps: seq<Step>)
    requires Legal(s, steps)
    decreases |steps|
  {
    steps != [] && (StaleWin(s, steps[0]) || HasStaleWin(Next(s, steps[0], true), steps[1..]))
  }

  predicate NoCompaction(steps: seq<Step>) {
    forall i :: 0 <= i < |steps| ==> !steps[i].Compaction?
  }

  lemma {:induction false} NoStaleWinWithoutCompaction(s: State, steps: seq<Step>)
    requires Inv(s) && Legal(s, steps) && NoCompaction(steps)
    ensures !HasStaleWin(s, steps)
    decreases |steps|
  {
    if steps != [] {
      if steps[0].Append? {
        if s.flight[steps[0].client].op.key != COMPACT_KEY { IndexCatchesStale(s, steps[0].client); }
        AppendKeepsInv(s, steps[0].client, steps[0].id);
      } else if steps[0].Fill? {
        FillKeepsInv(s, steps[0].revision);
      } else {
        ReadKeepsInv(s, steps[0].client, steps[0].op, steps[0].read, true);
      }
      NoStaleWinWithoutCompaction(Next(s, steps[0], true), steps[1..]);
    }
  }

  ghost function Above(cs: set<nat>): (c: nat)
    ensures forall d :: d in cs ==> d < c
  {
    if cs == {} then 0
    else
      var d :| d in cs;
      var rest := Above(cs - {d});
      assert forall e :: e in cs ==> e == d || e in cs - {d};
      if rest <= d then d + 1 else rest
  }

  /** A compaction outside the safe ones opens a run of reads and appends that ends in a stale win. */
  lemma UnsafeCompactionLosesUpdate(s: State, r: int) returns (steps: seq<Step>)
    requires Inv(s) && KeysReadThemselves(s) && !CompactSafe(s, r)
    ensures var s' := Next(s, Step.Compaction(r), true);
            Legal(s', steps) && NoCompaction(steps) && HasStaleWin(s', steps)
  {
    var c :| c in s.flight && s.flight[c].op.key != COMPACT_KEY && !SpareFor(s, r, s.flight[c]);
    if Current(s, s.flight[c]) {
      steps := RewriteOverLostTombstone(s, r, c);
    } else {
      steps := [Append(c, s.counter + 1)];
      var s' := Next(s, Step.Compaction(r), true);
      assert StaleWin(s', steps[0]);
      assert Legal(Next(s', steps[0], true), steps[1..]);
    }
  }

  /** The tombstone a Create has read is compacted: a second Create sees no row at all, and both go through. */
  lemma RewriteOverLostTombstone(s: State, r: int, c: nat) returns (steps: seq<Step>)
    requires Inv(s) && KeysReadThemselves(s) && c in s.flight && s.flight[c].op.key != COMPACT_KEY
    requires Current(s, s.flight[c]) && !SpareFor(s, r, s.flight[c])
    ensures var s' := Next(s, Step.Compaction(r), true);
            Legal(s', steps) && NoCompaction(steps) && HasStaleWin(s', steps)
  {
    LostTombstone(s, r, s.flight[c]);
    Compaction.CompactIsPart(s.table, r);
    steps := CreateTwice(Next(s, Step.Compaction(r), true), c);
  }

  /** An operation that names another row, on a key without rows: somebody else creates the key first. */
  lemma CreateTwice(s: State, c: nat) returns (steps: seq<Step>)
    requires WellFormed(s.table) && MaxId(s.table) <= s.counter && c in s.flight
    requires var p := s.flight[c];
             && p.op.key != COMPACT_KEY && ReadsItself(SqlLike, s.table, p.op.key)
             && p.row.name == p.op.key && p.row.prevRev != 0
             && (p.seen.Some? ==> p.seen.value.id <= s.counter)
             && forall x :: x in s.table ==> x.name != p.op.key
    ensures Legal(s, steps) && NoCompaction(steps) && HasStaleWin(s, steps)
  {
    var d := Above(s.flight.Keys);
    var read, first, s' := FreshCreate(s, d, s.flight[c].op.key);
    var second := Append(c, s.counter + 2);
    OverwritesUnseen(s, s', c);
    steps := [read, first, second];
    ThreeSteps(s, read, first, second);
  }

  /** With no row of its key in the table but one it has not seen, an operation that names another row wins stale. */
  lemma OverwritesUnseen(s: State, s': State, c: nat)
    requires c in s.flight && s'.flight == s.flight && s'.counter == s.counter + 1
    requires var p := s.flight[c];
             && p.op.key != COMPACT_KEY && p.row.name == p.op.key && p.row.prevRev != 0
             && (p.seen.Some? ==> p.seen.value.id <= s.counter)
             && p.op.key in s'.newest && s'.newest[p.op.key].id == s'.counter && s'.newest[p.op.key].prevRev == 0
             && s'.table == s.table + [s'.newest[p.op.key]] && forall x :: x in s.table ==> x.name != p.op.key
    ensures StaleWin(s', Append(c, s.counter + 2))
  {}

  /** A client that finds no row of the key creates it. */
  lemma FreshCreate(s: State, d: nat, k: Key) returns (read: Step, append: Step, s': State)
    requires WellFormed(s.table) && MaxId(s.table) <= s.counter && d !in s.flight
    requires k != COMPACT_KEY && ReadsItself(SqlLike, s.table, k)
    requires forall x :: x in s.table ==> x.name != k
    ensures !read.Compaction? && !append.Compaction?
    ensures Enabled(s, read, true) && Enabled(Next(s, read, true), append, true)
    ensures s' == Next(Next(s, read, true), append, true)
    ensures s'.flight == s.flight && s'.counter == s.counter + 1 && k in s'.newest && s'.newest[k].id == s.counter + 1
    ensures s'.newest[k].prevRev == 0 && s'.table == s.table + [s'.newest[k]]
  {
    var create := Create(k, [], 0);
    NewestIsNewest(s.table, k);
    ReadIsDue(s.table, create);
    read, append := Read(d, create, None), Append(d, s.counter + 1);
    var s2 := Next(s, read, true);
    assert !Clash(s2.table, s2.flight[d].row);
    s' := Next(s2, append, true);
    assert s'.flight == s.flight;
  }

  /** What compaction does to a current operation it does not spare: all rows of its key are gone. */
  lemma LostTombstone(s: State, r: int, p: Pending)
    requires Inv(s) && p.op.key != COMPACT_KEY && PendingOk(s, p) && Current(s, p) && !SpareFor(s, r, p)
    ensures var t' := Compaction.Compact(s.table, r);
            WellFormed(t') && MaxId(t') <= MaxId(s.table) && forall x :: x in t' ==> x.name != p.op.key
    ensures p.op.Create? && p.row.name == p.op.key && p.row.prevRev != 0
    ensures p.seen.Some? ==> p.seen.value.id <= s.counter
  {
    var k := p.op.key;
    AttemptCarriesExpected(s.table, p.op);
    NewestIsNewest(s.table, k);
    Compaction.CompactKeepsChains(s.table, r);
    MaxIdAfterCompact(s.table, r);
    NewestAfterCompact(s.table, r, k);
    NewestIsNewest(Compaction.Compact(s.table, r), k);
    assert HistoryOk(s, k);
  }

  /** Two harmless steps and a stale win make a run. */
  lemma ThreeSteps(s: State, a: Step, b: Step, c: Step)
    requires Enabled(s, a, true) && Enabled(Next(s, a, true), b, true)
    requires StaleWin(Next(Next(s, a, true), b, true), c)
    ensures Legal(s, [a, b, c]) && HasStaleWin(s, [a, b, c])
  {
    var s1 := Next(s, a, true);
    var s2 := Next(s1, b, true);
    assert [a, b, c][1..] == [b, c] && [b, c][1..] == [c] && [c][1..] == [];
    assert Legal(Next(s2, c, true), []);
    assert Legal(s2, [c]) && HasStaleWin(s2, [c]);
    assert Legal(s1, [b, c]) && HasStaleWin(s1, [b, c]);
  }

  /** Exactly the safe compactions leave a state from which no run of reads and appends wins stale. */
  lemma CompactSafeIsExact(s: State, r: int)
    requires Inv(s) && KeysReadThemselves(s)
    ensures CompactSafe(s, r) <==>
            forall steps :: Legal(Next(s, Step.Compaction(r), true), steps) && NoCompaction(steps)
                            ==> !HasStaleWin(Next(s, Step.Compaction(r), true), steps)
  {
    var s' := Next(s, Step.Compaction(r), true);
    if CompactSafe(s, r) {
      CompactKeepsInv(s, r);
      forall steps | Legal(s', steps) && NoCompaction(steps) ensures !HasStaleWin(s', steps) {
        NoStaleWinWithoutCompaction(s', steps);
      }
    } else {
      var steps := UnsafeCompactionLosesUpdate(s, r);
    }
  }

  /** Without the index: an append that comes while its read is still current. */
  ghost predicate NotOvertaken(s: State, p: Pending) {
    if p.op.key == COMPACT_KEY then !Clash(s.table, p.row) else Current(s, p)
  }

  /** Compactions are safe, and where no index refuses stale rows no append is overtaken. */
  ghost predicate SafeStep(s: State, step: Step, indexed: bool) {
    && Enabled(s, step, indexed)
    && (step.Compaction? ==> CompactSafe(s, step.target))
    && (step.Append? && !indexed ==> NotOvertaken(s, s.flight[step.client]))
  }

  ghost predicate SafeRun(s: State, steps: seq<Step>, indexed: bool)
    decreases |steps|
  {
    steps == [] || (SafeStep(s, steps[0], indexed) && SafeRun(Next(s, steps[0], indexed), steps[1..], indexed))
  }

  ghost function Final(s: State, steps: seq<Step>, indexed: bool): State
    requires SafeRun(s, steps, indexed)
    decreases |steps|
  {
    if steps == [] then s else Final(Next(s, steps[0], indexed), steps[1..], indexed)
  }

  /** The client operation a step brings to effect, with the id it gets. */
  ghost function EffectOf(s: State, step: Step): seq<(Op, int)> {
    if step.Append? && step.client in s.flight && s.flight[step.client].op.key != COMPACT_KEY
       && !Clash(s.table, s.flight[step.client].row)
    then [(s.flight[step.client].op, step.id)] else []
  }

  /** The client operations whose append succeeded, in the order of their appends. */
  ghost function Effects(s: State, steps: seq<Step>, indexed: bool): seq<(Op, int)>
    requires SafeRun(s, steps, indexed)
    decreases |steps|
  {
    if steps == [] then [] else EffectOf(s, steps[0]) + Effects(Next(s, steps[0], indexed), steps[1..], indexed)
  }

  /** Compare-and-set operations one after the other on the map. */
  function Replay(m: Store, effects: seq<(Op, int)>): Store
    decreases |effects|
  {
    if effects == [] then m else Replay(MapStep(m, effects[0].0, effects[0].1).0, effects[1..])
  }

  /** The comparison of the operation holds on the map it is applied to. */
  predicate Applies(m: Store, op: Op) {
    match op
    case Create(key, _, _) => key !in m
    case Update(key, _, revision, _) => key in m && m[key].modRev == revision
    case Delete(key, revision) => key in m && (revision == 0 || m[key].modRev == revision)
  }

  /** It does exactly when the operation writes. */
  lemma AppliesMeans(m: Store, op: Op, id: int)
    requires op.key in m ==> m[op.key].modRev < id
    ensures Applies(m, op) <==> MapStep(m, op, id).0 != m
    ensures Applies(m, op) <==> MapStep(m, op, id).1.ok && !(op.Delete? && op.key !in m)
  {
    var m' := MapStep(m, op, id).0;
    if Applies(m, op) { assert At(m', op.key) != At(m, op.key); }
  }

  predicate AllApply(m: Store, effects: seq<(Op, int)>)
    decreases |effects|
  {
    effects == [] || (Applies(m, effects[0].0) && AllApply(MapStep(m, effects[0].0, effects[0].1).0, effects[1..]))
  }

  lemma {:induction false} SafeRunFrom(s: State, steps: seq<Step>, m: Store, indexed: bool)
    requires Inv(s) && SafeRun(s, steps, indexed) && Shows(s.table, m)
    ensures Inv(Final(s, steps, indexed)) && Later(s, Final(s, steps, indexed))
    ensures AllApply(m, Effects(s, steps, indexed))
    ensures Shows(Final(s, steps, indexed).table, Replay(m, Effects(s, steps, indexed)))
    decreases |steps|
  {
    if steps != [] {
      var s' := Next(s, steps[0], indexed);
      var m' := StepOnMap(s, steps[0], m, indexed);
      SafeRunFrom(s', steps[1..], m', indexed);
      StepIsLater(s, steps[0], indexed);
      var effect, rest := EffectOf(s, steps[0]), Effects(s', steps[1..], indexed);
      if effect == [] {
        assert effect + rest == rest;
      } else {
        assert (effect + rest)[1..] == rest;
      }
    }
  }

  /** On a safe step it makes no difference whether there is an index. */
  lemma IndexMakesNoDifference(s: State, step: Step)
    requires Inv(s) && SafeStep(s, step, false)
    ensures step.Append? ==> Enabled(s, step, true) && Next(s, step, false) == Next(s, step, true)
  {
    if step.Append? && s.flight[step.client].op.key != COMPACT_KEY {
      UnindexedAppend(s, step.client, step.id);
    }
  }

  lemma SafeStepKeepsInv(s: State, step: Step, indexed: bool)
    requires Inv(s) && SafeStep(s, step, indexed)
    ensures Inv(Next(s, step, indexed))
  {
    match step
    case Read(c, op, read) => ReadKeepsInv(s, c, op, read, indexed);
    case Compaction(r) => CompactKeepsInv(s, r);
    case Append(c, id) =>
      if !indexed { IndexMakesNoDifference(s, step); }
      AppendKeepsInv(s, c, id);
    case Fill(id) => FillKeepsInv(s, id);
  }

  /** One step of a safe run on the map it shows. */
  lemma StepOnMap(s: State, step: Step, m: Store, indexed: bool) returns (m': Store)
    requires Inv(s) && SafeStep(s, step, indexed) && Shows(s.table, m)
    ensures Inv(Next(s, step, indexed)) && Shows(Next(s, step, indexed).table, m')
    ensures var effect := EffectOf(s, step);
            if effect == [] then m' == m
            else Applies(m, effect[0].0) && m' == MapStep(m, effect[0].0, effect[0].1).0
  {
    SafeStepKeepsInv(s, step, indexed);
    m' := m;
    match step
    case Read(c, op, read) =>
    case Compaction(r) => CompactionShows(s, r, m);
    case Fill(id) => FillShows(s, id, m);
    case Append(c, id) =>
      if !indexed { IndexMakesNoDifference(s, step); }
      if !Clash(s.table, s.flight[c].row) {
        m' := AppendOnMap(s, c, id, m);
      }
  }

  lemma CompactionShows(s: State, r: int, m: Store)
    requires Inv(s) && Shows(s.table, m)
    ensures Shows(Compaction.Compact(s.table, r), m)
  {
    forall k | k != COMPACT_KEY ensures Lookup(Compaction.Compact(s.table, r), k) == At(m, k) {
      NewestAfterCompact(s.table, r, k);
      assert Lookup(s.table, k) == At(m, k);
    }
  }

  lemma FillShows(s: State, id: nat, m: Store)
    requires Inv(s) && Shows(s.table, m) && Compaction.CanFill(s.table, id)
    ensures Shows(AfterFill(s, id).table, m)
  {
    InsertRowKeeps(s.table, Filler(id));
    forall k | k != COMPACT_KEY ensures Lookup(AfterFill(s, id).table, k) == At(m, k) {
      NewestAfterInsert(s.table, AfterFill(s, id).table, Filler(id), k);
      NewestIsNewest(s.table, k);
      assert Lookup(s.table, k) == At(m, k);
    }
  }

  lemma AppendOnMap(s: State, c: nat, id: int, m: Store) returns (m': Store)
    requires Inv(s) && Shows(s.table, m) && c in s.flight && s.counter < id && !Clash(s.table, s.flight[c].row)
    ensures Shows(Inserted(s.table, s.flight[c].row, id), m')
    ensures var op := s.flight[c].op;
            if op.key == COMPACT_KEY then m' == m else Applies(m, op) && m' == MapStep(m, op, id).0
  {
    var op, row := s.flight[c].op, s.flight[c].row;
    if op.key != COMPACT_KEY {
      IndexCatchesStale(s, c);
      assert PendingOk(s, s.flight[c]);
      ShowsAfterWrite(s.table, m, op, id);
      assert Lookup(s.table, op.key) == At(m, op.key);
      m' := MapStep(m, op, id).0;
    } else {
      m' := m;
      forall k | k != COMPACT_KEY ensures Lookup(Inserted(s.table, row, id), k) == At(m, k) {
        NewestAfterAppend(s.table, row.(id := id), k);
        assert Lookup(s.table, k) == At(m, k);
      }
    }
  }

  /**
   Every run of any number of clients on exact keys, with safe compactions anywhere in it: the operations that
   succeeded, taken in the order of their appends, all find their comparison true, and the table shows what they leave.
   */
  lemma SafeRunsAreCompareAndSet(steps: seq<Step>)
    requires SafeRun(INIT, steps, true)
    ensures AllApply(map[], Effects(INIT, steps, true))
    ensures Shows(Final(INIT, steps, true).table, Replay(map[], Effects(INIT, steps, true)))
    ensures Compaction.Chained(Final(INIT, steps, true).table)
  {
    InitInv();
    SafeRunFrom(INIT, steps, map[], true);
  }

  /**
   What the index guarantees outright, an uncontended run under DDS has without it, as long as no Update is misled by
   the first sample of its key (part of what a read can return there, see `Protocol.Returned`).
   */
  lemma UncontendedRunsAreCompareAndSet(steps: seq<Step>)
    requires SafeRun(INIT, steps, false)
    ensures AllApply(map[], Effects(INIT, steps, false))
    ensures Shows(Final(INIT, steps, false).table, Replay(map[], Effects(INIT, steps, false)))
    ensures Compaction.Chained(Final(INIT, steps, false).table)
  {
    InitInv();
    SafeRunFrom(INIT, steps, map[], false);
  }

  /* Sets of keys. */

  /** Rows and operations in flight are on these keys, besides the store's own. */
  ghost predicate OnKeys(s: State, keys: set<Key>) {
    && (forall x :: x in s.table ==> Named(keys, x.name))
    && forall c :: c in s.flight ==> s.flight[c].op.key in keys + {COMPACT_KEY}
  }

  predicate ReadsOn(steps: seq<Step>, keys: set<Key>) {
    forall i :: 0 <= i < |steps| && steps[i].Read? ==> steps[i].op.key in keys + {COMPACT_KEY}
  }

  lemma StepStaysOnKeys(s: State, step: Step, indexed: bool, keys: set<Key>)
    requires Inv(s) && Enabled(s, step, indexed) && OnKeys(s, keys)
    requires step.Read? ==> step.op.key in keys + {COMPACT_KEY}
    ensures OnKeys(Next(s, step, indexed), keys)
  {
    match step
    case Compaction(r) => Compaction.CompactKeeps(s.table, r);
    case Fill(id) => InsertRowKeeps(s.table, Filler(id));
    case _ =>
  }

  /**
   Keys none of which matches another, like "/my_crds/x" beside "/my_pods/x", read themselves throughout a run on them,
   so there the condition on reads is met by whatever the list query returns.
   */
  lemma {:induction false} ApartKeysReadThemselves(s: State, steps: seq<Step>, keys: set<Key>)
    requires Inv(s) && SafeRun(s, steps, true) && OnKeys(s, keys) && ReadsOn(steps, keys) && Apart(SqlLike, keys)
    ensures OnKeys(Final(s, steps, true), keys) && KeysReadThemselves(Final(s, steps, true))
    ensures forall k :: k in keys ==> ReadsItself(SqlLike, Final(s, steps, true).table, k)
    decreases |steps|
  {
    if steps != [] {
      SafeStepKeepsInv(s, steps[0], true);
      StepStaysOnKeys(s, steps[0], true, keys);
      ApartKeysReadThemselves(Next(s, steps[0], true), steps[1..], keys);
    } else {
      forall k | k in keys ensures ReadsItself(SqlLike, s.table, k) { ApartReadsItself(SqlLike, keys, s.table, k); }
    }
  }

  /** Sets of exact keys are such sets. */
  lemma ExactKeysAreApart(keys: set<Key>)
    requires forall k :: k in keys ==> ExactKey(SqlLike, k)
    ensures Apart(SqlLike, keys)
  {
    forall k | k in keys
      ensures MatchesKey(SqlLike, k, k) && (forall j :: j in keys && MatchesKey(SqlLike, k, j) ==> j == k)
      ensures MatchesKey(SqlLike, k, COMPACT_KEY) ==> k == COMPACT_KEY
      ensures forall id: nat :: MatchesKey(SqlLike, k, FillKey(id)) ==> k == FillKey(id)
    {
      ExactMatch(SqlLike, k, k);
      ExactMatch(SqlLike, k, COMPACT_KEY);
      forall j ensures MatchesKey(SqlLike, k, j) ==> j == k { ExactMatch(SqlLike, k, j); }
    }
  }

  /* The replies. */

  /** What an operation answers from its read alone is the answer of compare-and-set at the moment of the read. */
  lemma AnswerIsCompareAndSet(s: State, c: nat, op: Op, read: Option<Row>, indexed: bool, m: Store, id: int)
    requires Inv(s) && Enabled(s, Read(c, op, read), indexed) && op.key != COMPACT_KEY && Shows(s.table, m)
    requires Decide(op, read).Answer?
    ensures var (m', answer) := MapStep(m, op, id); var reply := Decide(op, read).reply;
            && m' == m && reply.ok == answer.ok && reply.keyExists == answer.keyExists
            && reply.kv == if op.Delete? && op.key !in m then LastVersion(s.table, op.key) else answer.kv
  {
    ReturnedIsDue(s.table, op, read, indexed);
    AnswerIsDue(s.table, m, op, id);
  }

  /** What it answers after a successful append is the answer at the moment of the append. */
  lemma SuccessIsCompareAndSet(s: State, c: nat, id: int, m: Store)
    requires Inv(s) && Enabled(s, Append(c, id), true) && s.flight[c].op.key != COMPACT_KEY && Shows(s.table, m)
    requires !Clash(s.table, s.flight[c].row)
    ensures var p := s.flight[c]; Done(p.op, p.seen, p.row, id) == MapStep(m, p.op, id).1
  {
    var p := s.flight[c];
    IndexCatchesStale(s, c);
    assert PendingOk(s, p) && HistoryOk(s, p.op.key);
    assert Lookup(s.table, p.op.key) == At(m, p.op.key);
  }

  predicate LeavesAlone(steps: seq<Step>, c: nat) {
    forall i :: 0 <= i < |steps| && steps[i].Append? ==> steps[i].client != c
  }

  ghost function StateAt(s: State, steps: seq<Step>, j: nat): State
    requires SafeRun(s, steps, true) && j <= |steps|
    decreases |steps|
  {
    if j == 0 then s else StateAt(Next(s, steps[0], true), steps[1..], j - 1)
  }

  /** The first write past a current Create is a creation. */
  lemma OvertakenByCreation(s: State, step: Step, c: nat)
    requires Inv(s) && SafeStep(s, step, true) && (step.Append? ==> step.client != c) && c in s.flight
    requires s.flight[c].op.Create? && s.flight[c].op.key != COMPACT_KEY && Current(s, s.flight[c])
    requires !Current(Next(s, step, true), s.flight[c])
    ensures Lookup(Next(s, step, true).table, s.flight[c].op.key).Some?
  {
    var p := s.flight[c];
    assert PendingOk(s, p) && step.Append?;
    var mine := s.flight[step.client];
    assert mine.op.key == p.op.key && PendingOk(s, mine);
    IndexCatchesStale(s, step.client);
    NewestIsNewest(s.table, p.op.key);
    NewestAfterAppend(s.table, mine.row.(id := step.id), p.op.key);
  }

  lemma StepLeavesAlone(s: State, step: Step, c: nat)
    requires Enabled(s, step, true) && c in s.flight && (step.Append? ==> step.client != c)
    ensures c in Next(s, step, true).flight && Next(s, step, true).flight[c] == s.flight[c]
  {}

  /** What is known of the first step of a run, and of the rest. */
  lemma FirstStep(s: State, steps: seq<Step>, c: nat)
    requires Inv(s) && SafeRun(s, steps, true) && LeavesAlone(steps, c) && c in s.flight && steps != []
    ensures SafeStep(s, steps[0], true) && (steps[0].Append? ==> steps[0].client != c)
    ensures var s' := Next(s, steps[0], true);
            && Inv(s') && SafeRun(s', steps[1..], true) && LeavesAlone(steps[1..], c)
            && c in s'.flight && s'.flight[c] == s.flight[c]
            && Final(s, steps, true) == Final(s', steps[1..], true)
  {
    SafeStepKeepsInv(s, steps[0], true);
    StepLeavesAlone(s, steps[0], c);
  }

  lemma LaterStateAt(s: State, steps: seq<Step>, j: nat)
    requires SafeRun(s, steps, true) && steps != [] && j < |steps|
    ensures StateAt(s, steps, j + 1) == StateAt(Next(s, steps[0], true), steps[1..], j)
  {}

  /** The key is live in some state of the run. */
  ghost predicate IsMet(s: State, steps: seq<Step>, k: Key, j: nat)
    requires SafeRun(s, steps, true)
  {
    j <= |steps| && Lookup(StateAt(s, steps, j).table, k).Some?
  }

  lemma IsMetLater(s: State, steps: seq<Step>, k: Key, j: nat)
    requires SafeRun(s, steps, true) && steps != [] && IsMet(Next(s, steps[0], true), steps[1..], k, j)
    ensures IsMet(s, steps, k, j + 1)
  {
    LaterStateAt(s, steps, j);
  }

  ghost predicate CreatePends(s: State, c: nat) {
    c in s.flight && s.flight[c].op.Create? && s.flight[c].op.key != COMPACT_KEY && Current(s, s.flight[c])
  }

  /** The rest of the run overtakes a Create of the key. */
  ghost predicate Overtakes(s: State, steps: seq<Step>, c: nat, k: Key) {
    && Inv(s) && SafeRun(s, steps, true) && LeavesAlone(steps, c) && CreatePends(s, c) && steps != []
    && s.flight[c].op.key == k && !Current(Final(s, steps, true), s.flight[c])
  }

  /** One step on it still does, or the key has just been created. */
  lemma OvertakesLater(s: State, steps: seq<Step>, c: nat, k: Key) returns (s': State, rest: seq<Step>, met: bool)
    requires Overtakes(s, steps, c, k)
    ensures SafeRun(s', rest, true) && |rest| < |steps|
    ensures if met then IsMet(s', rest, k, 0) else Overtakes(s', rest, c, k)
    ensures forall j: nat :: IsMet(s', rest, k, j) ==> IsMet(s, steps, k, j + 1)
  {
    s', rest := Next(s, steps[0], true), steps[1..];
    FirstStep(s, steps, c);
    met := !Current(s', s.flight[c]);
    if met { OvertakenByCreation(s, steps[0], c); }
    forall j: nat | IsMet(s', rest, k, j) ensures IsMet(s, steps, k, j + 1) { IsMetLater(s, steps, k, j); }
  }

  lemma {:induction false} CreateMeetsTheKey(s: State, steps: seq<Step>, c: nat, k: Key) returns (j: nat)
    requires Overtakes(s, steps, c, k)
    ensures IsMet(s, steps, k, j)
    decreases |steps|
  {
    var s', rest, met := OvertakesLater(s, steps, c, k);
    j := 0;
    if !met { j := CreateMeetsTheKey(s', rest, c, k); }
    j := j + 1;
  }

  lemma {:induction false} StaysInFlight(s: State, steps: seq<Step>, c: nat)
    requires SafeRun(s, steps, true) && LeavesAlone(steps, c) && c in s.flight
    ensures c in Final(s, steps, true).flight && Final(s, steps, true).flight[c] == s.flight[c]
    decreases |steps|
  {
    if steps != [] {
      StepLeavesAlone(s, steps[0], c);
      StaysInFlight(Next(s, steps[0], true), steps[1..], c);
    }
  }

  /** A refused Create answers "key exists", as compare-and-set would have at some moment since its read. */
  lemma RefusedCreateMetTheKey(s: State, c: nat, op: Op, read: Option<Row>, steps: seq<Step>, id: int) returns (j: nat)
    requires Inv(s) && Enabled(s, Read(c, op, read), true) && op.Create? && op.key != COMPACT_KEY
    requires Decide(op, read).Attempt?
    requires SafeRun(Next(s, Read(c, op, read), true), steps, true) && LeavesAlone(steps, c)
    requires var s' := Final(Next(s, Read(c, op, read), true), steps, true);
             Enabled(s', Append(c, id), true) && Clash(s'.table, s'.flight[c].row)
    ensures j <= |steps|
    ensures forall m :: Shows(StateAt(Next(s, Read(c, op, read), true), steps, j).table, m)
                        ==> MapStep(m, op, id).1 == Refused(op, None, None)
  {
    var s1 := Next(s, Read(c, op, read), true);
    ReadKeepsInv(s, c, op, read, true);
    StaysInFlight(s1, steps, c);
    RunKeepsInv(s1, steps);
    IndexCatchesStale(Final(s1, steps, true), c);
    j := CreateMeetsTheKey(s1, steps, c, op.key);
    CreateOfLive(StateAt(s1, steps, j).table, op, id);
  }

  lemma CreateOfLive(t: seq<Row>, op: Op, id: int)
    requires op.Create? && op.key != COMPACT_KEY && Lookup(t, op.key).Some?
    ensures forall m :: Shows(t, m) ==> MapStep(m, op, id).1 == Refused(op, None, None)
  {
    forall m | Shows(t, m) ensures MapStep(m, op, id).1 == Refused(op, None, None) {
      assert Lookup(t, op.key) == At(m, op.key);
    }
  }

  lemma {:induction false} RunKeepsInv(s: State, steps: seq<Step>)
    requires Inv(s) && SafeRun(s, steps, true)
    ensures Inv(Final(s, steps, true)) && Later(s, Final(s, steps, true))
    decreases |steps|
  {
    if steps != [] {
      SafeStepKeepsInv(s, steps[0], true);
      StepIsLater(s, steps[0], true);
      RunKeepsInv(Next(s, steps[0], true), steps[1..]);
    }
  }

  /** The answer of a refused Update or Delete, wherever in the rest of a run its second read comes. */
  lemma RefusalsStayHonest(s: State, c: nat, id: int, steps: seq<Step>, m: Store, id': int)
    requires Inv(s) && Enabled(s, Append(c, id), true) && s.flight[c].op.key != COMPACT_KEY
    requires Clash(s.table, s.flight[c].row) && !s.flight[c].op.Create?
    requires SafeRun(Next(s, Append(c, id), true), steps, true)
    requires Shows(Final(Next(s, Append(c, id), true), steps, true).table, m)
    ensures var s' := Final(Next(s, Append(c, id), true), steps, true);
            var op := s.flight[c].op;
            var reply := Refused(op, Due(s'.table, op), s.flight[c].seen);
            var answer := MapStep(m, op, id').1;
            && (op.Update? ==> reply == answer)
            && (op.Delete? ==> !reply.ok && (reply.ok == answer.ok <==> op.revision != 0 && op.key in m))
            && (op.Delete? && op.key in m ==> reply.kv == Some(m[op.key]))
            && s.flight[c].seen.Some?
            && (op.Delete? && op.key !in m ==>
                  reply.kv == if Newest(s'.table, op.key).Some? then LastVersion(s'.table, op.key)
                              else Some(KvOf(s.flight[c].seen.value)))
            && (op.Delete? && op.revision != 0 && op.key in m ==> reply == answer)
  {
    var s1 := Next(s, Append(c, id), true);
    AppendKeepsInv(s, c, id);
    RunKeepsInv(s1, steps);
    StepIsLater(s, Append(c, id), true);
    RefusalIsHonest(s, c, id, Final(s1, steps, true), m, id');
  }

  /** A key is created, read by client 1 for an unconditional Delete, and updated before that Delete appends. */
  lemma OvertakenDelete() returns (steps: seq<Step>, s: State)
    ensures Legal(INIT, steps) && NoCompaction(steps) && Steps(INIT, steps) == s && Inv(s)
    ensures 1 in s.flight && s.flight[1].op == Delete(SOME_KEY, 0) && !Current(s, s.flight[1])
    ensures s.counter == 2 && Lookup(s.table, SOME_KEY).Some? && SOME_KEY != COMPACT_KEY
  {
    var steps1, s1 := KeyCreated();
    var read, s2 := DeleteRead(s1);
    Extend(INIT, steps1, read);
    var update := Update(SOME_KEY, [], 1, 0);
    ReadsSomeKey(s2.table);
    steps, s := OneWrite(steps1 + [read], s2, update, 2);
    NewestAfterAppend(s2.table, Decide(update, Due(s2.table, update)).row.(id := 2), SOME_KEY);
  }

  lemma KeyCreated() returns (steps: seq<Step>, s: State)
    ensures Legal(INIT, steps) && NoCompaction(steps) && Steps(INIT, steps) == s && Inv(s)
    ensures s.flight == map[] && s.counter == 1 && SOME_KEY in s.newest && s.newest[SOME_KEY].id == 1
    ensures Newest(s.table, SOME_KEY) == Some(s.newest[SOME_KEY]) && !s.newest[SOME_KEY].deleted
  {
    var create := Create(SOME_KEY, [], 0);
    InitInv();
    NewestUnique([], SOME_KEY, None);
    ReadsSomeKey(INIT.table);
    steps, s := OneWrite([], INIT, create, 1);
    NewestAfterAppend([], Decide(create, None).row.(id := 1), SOME_KEY);
  }

  lemma DeleteRead(s: State) returns (read: Step, s': State)
    requires Inv(s) && s.flight == map[] && s.counter == 1 && SOME_KEY in s.newest && s.newest[SOME_KEY].id == 1
    requires Newest(s.table, SOME_KEY) == Some(s.newest[SOME_KEY]) && !s.newest[SOME_KEY].deleted
    ensures Enabled(s, read, true) && !read.Compaction? && s' == Next(s, read, true) && Inv(s')
    ensures s'.table == s.table && s'.newest == s.newest && s'.counter == 1 && s'.flight.Keys == {1}
    ensures s'.flight[1].op == Delete(SOME_KEY, 0) && s'.flight[1].seen == Some(s.newest[SOME_KEY])
  {
    var delete := Delete(SOME_KEY, 0);
    ReadsSomeKey(s.table);
    ReadIsDue(s.table, delete);
    read := Read(1, delete, Due(s.table, delete));
    ReadKeepsInv(s, 1, delete, read.read, true);
    s' := Next(s, read, true);
  }

  /** An unconditional Delete that is overtaken by an Update answers "not deleted", of a key that is there. */
  lemma RefusedDeleteDiffers() returns (steps: seq<Step>, s: State, c: nat, id: int)
    ensures Legal(INIT, steps) && NoCompaction(steps) && Steps(INIT, steps) == s && Inv(s)
    ensures Enabled(s, Append(c, id), true) && Clash(s.table, s.flight[c].row)
    ensures s.flight[c].op == Delete(SOME_KEY, 0) && Lookup(s.table, SOME_KEY).Some?
    ensures forall m :: Shows(s.table, m) ==>
              var op := s.flight[c].op;
              Refused(op, Due(s.table, op), s.flight[c].seen).ok != MapStep(m, op, id).1.ok
  {
    c, id := 1, 3;
    steps, s := OvertakenDelete();
    IndexCatchesStale(s, c);
  }

  /* A run that shows what an unsafe compaction does. */

  ghost function Steps(s: State, steps: seq<Step>): State
    requires Legal(s, steps)
    decreases |steps|
  {
    if steps == [] then s else Steps(Next(s, steps[0], true), steps[1..])
  }

  const SOME_KEY: Key := [47, 97]

  lemma ReadsSomeKey(t: seq<Row>)
    ensures ReadsItself(SqlLike, t, SOME_KEY) && SOME_KEY != COMPACT_KEY
  {
    ExactReadsItself(SqlLike, t, SOME_KEY);
  }

  /** A key is created and deleted by clients without rivals. */
  lemma CreateThenDelete() returns (steps: seq<Step>, s: State)
    ensures Legal(INIT, steps) && NoCompaction(steps) && Steps(INIT, steps) == s && Inv(s)
    ensures s.flight == map[] && s.counter == 2
    ensures Newest(s.table, SOME_KEY).Some? && Newest(s.table, SOME_KEY).value.deleted
    ensures Newest(s.table, SOME_KEY).value.id == 2
  {
    var create, delete := Create(SOME_KEY, [], 0), Delete(SOME_KEY, 0);
    InitInv();
    NewestUnique([], SOME_KEY, None);
    ReadsSomeKey(INIT.table);
    var steps1, s1 := OneWrite([], INIT, create, 1);
    NewestAfterAppend([], Decide(create, None).row.(id := 1), SOME_KEY);
    ReadsSomeKey(s1.table);
    var row := Decide(delete, Due(s1.table, delete)).row;
    steps, s := OneWrite(steps1, s1, delete, 2);
    NewestAfterAppend(s1.table, row.(id := 2), SOME_KEY);
  }

  /** Staying at or below the revision of every pending read does not make a compaction safe. */
  lemma ReadRevisionBoundIsNotEnough() returns (steps: seq<Step>, s: State, r: int)
    ensures Legal(INIT, steps) && NoCompaction(steps) && Steps(INIT, steps) == s && Inv(s)
    ensures forall c :: c in s.flight ==> r <= s.flight[c].readRev
    ensures !CompactSafe(s, r)
  {
    var create := Create(SOME_KEY, [], 0);
    var before, s2 := CreateThenDelete();
    ReadsSomeKey(s2.table);
    ReadIsDue(s2.table, create);
    var read := Read(1, create, Due(s2.table, create));
    ReadKeepsInv(s2, 1, create, read.read, true);
    Extend(INIT, before, read);
    steps, s, r := before + [read], Next(s2, read, true), 2;
    assert !SpareFor(s, r, s.flight[1]);
  }

  /** A client reads and appends without interruption. */
  lemma OneWrite(before: seq<Step>, s: State, op: Op, id: int) returns (steps: seq<Step>, s': State)
    requires Legal(INIT, before) && NoCompaction(before) && Steps(INIT, before) == s
    requires Inv(s) && 0 !in s.flight && s.counter < id
    requires op.key != COMPACT_KEY && ReadsItself(SqlLike, s.table, op.key)
    requires Decide(op, Due(s.table, op)).Attempt?
    ensures Legal(INIT, steps) && NoCompaction(steps) && Steps(INIT, steps) == s' && Inv(s')
    ensures s'.counter == id && s'.flight == s.flight
    ensures s'.table == Inserted(s.table, Decide(op, Due(s.table, op)).row, id)
    ensures s'.newest == s.newest[op.key := Decide(op, Due(s.table, op)).row.(id := id)]
  {
    var read;
    read, s' := ReadAndAppend(s, op, Decide(op, Due(s.table, op)).row, id);
    ExtendByTwo(before, s, read, Append(0, id));
    steps := before + [read] + [Append(0, id)];
  }

  lemma ReadAndAppend(s: State, op: Op, row: Row, id: int) returns (read: Step, s': State)
    requires Inv(s) && 0 !in s.flight && s.counter < id
    requires op.key != COMPACT_KEY && ReadsItself(SqlLike, s.table, op.key)
    requires Decide(op, Due(s.table, op)) == Attempt(row)
    ensures !read.Compaction? && Enabled(s, read, true) && Enabled(Next(s, read, true), Append(0, id), true)
    ensures s' == Next(Next(s, read, true), Append(0, id), true) && Inv(s')
    ensures s' == State(Inserted(s.table, row, id), s.newest[op.key := row.(id := id)], id, s.flight)
  {
    var s1;
    read, s1 := OneRead(s, op, row);
    s' := OneAppend(s1, id);
    AddAndRemove(s.flight, s1.flight[0]);
  }

  lemma AddAndRemove(flight: map<nat, Pending>, p: Pending)
    requires 0 !in flight
    ensures flight[0 := p] - {0} == flight
  {}

  lemma OneRead(s: State, op: Op, row: Row) returns (read: Step, s': State)
    requires Inv(s) && 0 !in s.flight && op.key != COMPACT_KEY && ReadsItself(SqlLike, s.table, op.key)
    requires Decide(op, Due(s.table, op)) == Attempt(row)
    ensures Enabled(s, read, true) && !read.Compaction? && s' == Next(s, read, true) && Inv(s')
    ensures s' == s.(flight := s.flight[0 := Pending(op, row, Hist(s, op.key), s.counter)])
  {
    ReadIsDue(s.table, op);
    read := Read(0, op, Due(s.table, op));
    ReadKeepsInv(s, 0, op, read.read, true);
    s' := Next(s, read, true);
  }

  lemma OneAppend(s: State, id: int) returns (s': State)
    requires Inv(s) && 0 in s.flight && s.counter < id && s.flight[0].op.key != COMPACT_KEY && Current(s, s.flight[0])
    ensures s' == Next(s, Append(0, id), true) && Inv(s')
    ensures var p := s.flight[0];
            s' == State(Inserted(s.table, p.row, id), s.newest[p.op.key := p.row.(id := id)], id, s.flight - {0})
  {
    IndexCatchesStale(s, 0);
    AppendKeepsInv(s, 0, id);
    s' := Next(s, Append(0, id), true);
  }

  lemma ExtendByTwo(steps: seq<Step>, s: State, a: Step, b: Step)
    requires Legal(INIT, steps) && NoCompaction(steps) && Steps(INIT, steps) == s
    requires !a.Compaction? && Enabled(s, a, true) && !b.Compaction? && Enabled(Next(s, a, true), b, true)
    ensures Legal(INIT, steps + [a] + [b]) && NoCompaction(steps + [a] + [b])
    ensures Steps(INIT, steps + [a] + [b]) == Next(Next(s, a, true), b, true)
  {
    Extend(INIT, steps, a);
    Extend(INIT, steps + [a], b);
  }

  lemma {:induction false} Extend(s: State, steps: seq<Step>, step: Step)
    requires Legal(s, steps) && NoCompaction(steps) && !step.Compaction? && Enabled(Steps(s, steps), step, true)
    ensures Legal(s, steps + [step]) && NoCompaction(steps + [step])
    ensures Steps(s, steps + [step]) == Next(Steps(s, steps), step, true)
    decreases |steps|
  {
    if steps == [] {
      assert [step][1..] == [];
      assert steps + [step] == [step];
      assert Legal(Next(s, step, true), []);
    } else {
      Extend(Next(s, steps[0], true), steps[1..], step);
      assert (steps + [step])[1..] == steps[1..] + [step];
    }
  }
}
