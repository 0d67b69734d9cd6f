/**
 The store under concurrency: any number of clients interleave the read and the append of their operations,
 and compaction runs in between. `newest` is a history variable (the last row ever appended per key, whether
 or not it has been compacted since); no operation looks at it.
 */
module Protocol {
  import opened Tables
  import opened Compaction
  import opened SqlQueries
  import opened QueryEngine
  import opened PointReads
  import opened Operations

  /** An operation between its read and its append. */
  datatype Pending = Pending(op: Op, row: Row, seen: Option<Row>, readRev: int)

  datatype State = State(table: seq<Row>, newest: map<Key, Row>, counter: int, flight: map<nat, Pending>)

  datatype Step =
    | Read(client: nat, op: Op, read: Option<Row>)
    | Append(client: nat, id: int)
    | Compaction(target: int)
    | Fill(revision: nat)

  const INIT := State([], map[], 0, map[])

  function Hist(s: State, k: Key): Option<Row> {
    if k in s.newest then Some(s.newest[k]) else None
  }

  /** Nothing was appended for the key since the client read it. */
  predicate Current(s: State, p: Pending) {
    p.seen == Hist(s, p.op.key)
  }

  /**
   What a read can return: on SQL the first row of the key's list, under DDS that of some order of arrival. Client
   operations are on keys that read themselves, as exact keys always do, for Update under DDS with a first sample that
   does not mislead; the store's own writes of its reserved key may have read anything of that key.
   */
  ghost predicate Returned(t: seq<Row>, op: Op, read: Option<Row>, indexed: bool) {
    if op.key == COMPACT_KEY then read.Some? ==> read.value.name == COMPACT_KEY
    else if indexed then ReadsItself(SqlLike, t, op.key) && read == ReadOf(t, op)
    else ReadsItself(DdsFilter, t, op.key) && ReadUnderDds(t, op, read)
  }

  lemma ReturnedIsDue(t: seq<Row>, op: Op, read: Option<Row>, indexed: bool)
    requires WellFormed(t) && op.key != COMPACT_KEY && Returned(t, op, read, indexed)
    ensures read == Due(t, op)
  {
    if indexed { ReadIsDue(t, op); } else { DdsReadIsDue(t, op, read); }
  }

  /** A filler's name is used by nobody else. */
  ghost predicate NameIsFree(s: State, id: nat) {
    && (FillKey(id) in s.newest ==> s.newest[FillKey(id)] == Filler(id))
    && forall c :: c in s.flight ==> s.flight[c].op.key != FillKey(id)
  }

  /** The poll loop fills a revision that no row has. */
  ghost function AfterFill(s: State, id: nat): State {
    s.(table := InsertRow(s.table, Filler(id)), newest := s.newest[FillKey(id) := Filler(id)])
  }

  /** `indexed` says whether the unique index exists (the SQL drivers) or not (the DDS driver). */
  ghost predicate Enabled(s: State, step: Step, indexed: bool) {
    match step
    case Read(c, op, read) => c !in s.flight && Returned(s.table, op, read, indexed)
    case Append(c, id) => c in s.flight && s.counter < id
    case Compaction(_) => true
    case Fill(id) => id <= s.counter && CanFill(s.table, id) && NameIsFree(s, id)
  }

  ghost function Next(s: State, step: Step, indexed: bool): State
    requires Enabled(s, step, indexed)
  {
    match step
    case Read(c, op, read) =>
      (match Decide(op, read)
       case Answer(_) => s
       case Attempt(row) =>
         s.(flight := s.flight[c := Pending(op, row, Hist(s, op.key), s.counter)]))
    case Append(c, id) =>
      var p := s.flight[c];
      if indexed && Clash(s.table, p.row) then
        s.(flight := s.flight - {c})
      else
        State(Inserted(s.table, p.row, id), s.newest[p.op.key := p.row.(id := id)], id, s.flight - {c})
    case Compaction(r) =>
      s.(table := Compact(s.table, r))
    case Fill(id) => AfterFill(s, id)
  }

  /* What every step keeps. */

  ghost predicate HistoryOk(s: State, k: Key) {
    && (Hist(s, k).Some? ==> Hist(s, k).value.name == k && 0 < Hist(s, k).value.id <= s.counter)
    && match Newest(s.table, k)
       case Some(n) => Hist(s, k) == Some(n)
       case None => Hist(s, k).None? || Hist(s, k).value.deleted
  }

  /** The row that takes the place a stale client meant its own row for. */
  ghost predicate Blocks(y: Row, p: Pending) {
    && y.name == p.op.key && y.prevRev == p.row.prevRev && p.readRev < y.id
    && (p.op.Create? ==> !y.deleted)
  }

  ghost predicate Blocked(t: seq<Row>, p: Pending) {
    exists y :: y in t && Blocks(y, p)
  }

  ghost predicate PendingOk(s: State, p: Pending) {
    && p.row.name == p.op.key
    && p.readRev <= s.counter
    && (p.seen.Some? ==> p.seen.value.id <= p.readRev)
    && (!p.op.Create? ==> p.seen.Some? && !p.seen.value.deleted)
    && (p.op.Update? || (p.op.Delete? && p.op.revision != 0) ==> p.seen.value.id == p.op.revision)
    && if Current(s, p) then Decide(p.op, Due(s.table, p.op)) == Attempt(p.row)
       else Blocked(s.table, p)
  }

  ghost predicate Inv(s: State) {
    && WellFormed(s.table) && Chained(s.table)
    && MaxId(s.table) <= s.counter && 0 <= s.counter
    && (forall k :: k != COMPACT_KEY ==> HistoryOk(s, k))
    && (forall c :: c in s.flight && s.flight[c].op.key != COMPACT_KEY ==> PendingOk(s, s.flight[c]))
    && (forall c :: c in s.flight ==> s.flight[c].row.name == s.flight[c].op.key)
  }

  lemma InitInv()
    ensures Inv(INIT)
  {}

  lemma OtherFlights(s: State, s': State, p: Pending)
    requires PendingOk(s, p) && s'.table == s.table && s'.newest == s.newest && s'.counter == s.counter
    ensures PendingOk(s', p)
  {}

  /** An operation that has just read is current. */
  lemma ReadPends(s: State, op: Op, row: Row)
    requires Inv(s) && op.key != COMPACT_KEY && Decide(op, Due(s.table, op)) == Attempt(row)
    ensures PendingOk(s, Pending(op, row, Hist(s, op.key), s.counter))
  {
    AttemptCarriesExpected(s.table, op);
    assert HistoryOk(s, op.key);
  }

  /** What an Update or Delete in flight has seen is what it has read. */
  lemma SeenIsRead(s: State, c: nat, op: Op, read: Option<Row>, indexed: bool)
    requires Inv(s) && Enabled(s, Read(c, op, read), indexed) && op.key != COMPACT_KEY && !op.Create?
    requires Decide(op, read).Attempt?
    ensures var s' := Next(s, Read(c, op, read), indexed);
            c in s'.flight && s'.flight[c].op == op && s'.flight[c].seen == read
  {
    ReturnedIsDue(s.table, op, read, indexed);
    assert HistoryOk(s, op.key);
  }

  lemma PendingKeepsInv(s: State, c: nat, p: Pending)
    requires Inv(s) && c !in s.flight && p.row.name == p.op.key
    requires p.op.key != COMPACT_KEY ==> PendingOk(s, p)
    ensures Inv(s.(flight := s.flight[c := p]))
  {
    var s' := s.(flight := s.flight[c := p]);
    forall k | k != COMPACT_KEY ensures HistoryOk(s', k) { assert HistoryOk(s, k); }
    forall d | d in s'.flight && s'.flight[d].op.key != COMPACT_KEY ensures PendingOk(s', s'.flight[d]) {
      assert PendingOk(s, s'.flight[d]);
      OtherFlights(s, s', s'.flight[d]);
    }
  }

  lemma ReadKeepsInv(s: State, c: nat, op: Op, read: Option<Row>, indexed: bool)
    requires Inv(s) && Enabled(s, Read(c, op, read), indexed)
    ensures Inv(Next(s, Read(c, op, read), indexed))
  {
    var decision := Decide(op, read);
    if decision.Attempt? {
      if op.key != COMPACT_KEY {
        ReturnedIsDue(s.table, op, read, indexed);
        ReadPends(s, op, decision.row);
      }
      PendingKeepsInv(s, c, Pending(op, decision.row, Hist(s, op.key), s.counter));
    }
  }

  /** Every client operation in flight is on a key that reads itself. */
  ghost predicate KeysReadThemselves(s: State) {
    forall c :: c in s.flight && s.flight[c].op.key != COMPACT_KEY ==> ReadsItself(SqlLike, s.table, s.flight[c].op.key)
  }

  /** The index refuses exactly the appends that come too late. */
  lemma IndexCatchesStale(s: State, c: nat)
    requires Inv(s) && c in s.flight && s.flight[c].op.key != COMPACT_KEY
    ensures Clash(s.table, s.flight[c].row) <==> !Current(s, s.flight[c])
  {
    var p := s.flight[c];
    assert PendingOk(s, p);
    if Current(s, p) {
      AttemptCarriesExpected(s.table, p.op);
      ExpectedNeverClashes(s.table, p.row);
    }
  }

  /** A write of the key blocks whoever read before it. */
  lemma WriteBlocks(s: State, mine: Pending, z: Row, p: Pending)
    requires Inv(s) && PendingOk(s, mine) && Current(s, mine) && mine.op.key != COMPACT_KEY
    requires z.id > s.counter && z == mine.row.(id := z.id)
    requires PendingOk(s, p) && p.op.key == mine.op.key
    ensures Blocked(s.table + [z], p)
  {
    AttemptCarriesExpected(s.table, mine.op);
    if Current(s, p) {
      AttemptCarriesExpected(s.table, p.op);
      assert z in s.table + [z] && Blocks(z, p);
    } else {
      BlockedForGood(s.table, z, p);
    }
  }

  lemma BlockedForGood(t: seq<Row>, z: Row, p: Pending)
    requires Blocked(t, p)
    ensures Blocked(t + [z], p)
  {
    var y :| y in t && Blocks(y, p);
    assert y in t + [z];
  }

  /** What a current append does to the other operations in flight: those on its key are now blocked by it. */
  lemma AppendBlocksOthers(s: State, c: nat, id: int, p: Pending)
    requires Inv(s) && c in s.flight && s.counter < id && s.flight[c].op.key != COMPACT_KEY
    requires Current(s, s.flight[c])
    requires p.op.key != COMPACT_KEY && PendingOk(s, p)
    ensures PendingOk(Next(s, Append(c, id), true), p)
  {
    var s' := Next(s, Append(c, id), true);
    var mine := s.flight[c];
    var z := mine.row.(id := id);
    assert PendingOk(s, mine);
    IndexCatchesStale(s, c);
    assert s'.table == s.table + [z];
    if p.op.key == mine.op.key {
      WriteBlocks(s, mine, z, p);
      assert p.seen.Some? ==> p.seen.value.id <= s.counter;
      assert !Current(s', p);
    } else if Current(s, p) {
      NewestAfterAppend(s.table, z, p.op.key);
    } else {
      BlockedForGood(s.table, z, p);
    }
  }

  lemma AppendKeepsHistory(s: State, c: nat, id: int, k: Key)
    requires Inv(s) && c in s.flight && s.counter < id && s.flight[c].op.key != COMPACT_KEY
    requires Current(s, s.flight[c]) && k != COMPACT_KEY
    ensures HistoryOk(Next(s, Append(c, id), true), k)
  {
    IndexCatchesStale(s, c);
    NewestAfterAppend(s.table, s.flight[c].row.(id := id), k);
    assert HistoryOk(s, k);
  }

  /** Rows of the reserved key are invisible to every other key. */
  lemma ReservedAppendKeepsInv(s: State, c: nat, id: int)
    requires Inv(s) && c in s.flight && s.counter < id && s.flight[c].op.key == COMPACT_KEY
    requires !Clash(s.table, s.flight[c].row)
    ensures Inv(Next(s, Append(c, id), true))
  {
    var s' := Next(s, Append(c, id), true);
    var z := s.flight[c].row.(id := id);
    AppendKeepsChains(s.table, z);
    AppendAscending(s.table, z);
    forall k | k != COMPACT_KEY ensures HistoryOk(s', k) {
      assert HistoryOk(s, k);
      NewestAfterAppend(s.table, z, k);
    }
    forall d | d in s'.flight && s'.flight[d].op.key != COMPACT_KEY ensures PendingOk(s', s'.flight[d]) {
      var p := s.flight[d];
      assert PendingOk(s, p);
      NewestAfterAppend(s.table, z, p.op.key);
      if !Current(s, p) {
        var y :| y in s.table && Blocks(y, p);
        assert y in s'.table;
      }
    }
  }

  /* Fillers. */

  lemma FillersAreNotReserved(id: nat)
    ensures FillKey(id) != COMPACT_KEY && FillKey(id)[..4] == [103, 97, 112, 45]
  {
    assert FillKey(id)[0] == 103;
  }

  lemma FillKeepsHistory(s: State, id: nat, k: Key)
    requires Inv(s) && CanFill(s.table, id) && id <= s.counter && k != COMPACT_KEY
    ensures HistoryOk(AfterFill(s, id), k)
  {
    InsertRowKeeps(s.table, Filler(id));
    NewestAfterInsert(s.table, InsertRow(s.table, Filler(id)), Filler(id), k);
    assert HistoryOk(s, k);
  }

  lemma FillKeepsPending(s: State, id: nat, p: Pending)
    requires Inv(s) && CanFill(s.table, id) && p.op.key != COMPACT_KEY && PendingOk(s, p) && p.op.key != FillKey(id)
    ensures PendingOk(AfterFill(s, id), p)
  {
    var t' := InsertRow(s.table, Filler(id));
    InsertRowKeeps(s.table, Filler(id));
    NewestAfterInsert(s.table, t', Filler(id), p.op.key);
    if !Current(s, p) {
      var y :| y in s.table && Blocks(y, p);
      assert y in t';
    }
  }

  lemma FillKeepsInv(s: State, id: nat)
    requires Inv(s) && CanFill(s.table, id) && id <= s.counter
    requires forall c :: c in s.flight ==> s.flight[c].op.key != FillKey(id)
    ensures Inv(AfterFill(s, id))
  {
    var s' := AfterFill(s, id);
    InsertRowKeeps(s.table, Filler(id));
    FillKeepsChains(s.table, id);
    forall k | k != COMPACT_KEY ensures HistoryOk(s', k) { FillKeepsHistory(s, id, k); }
    forall c | c in s'.flight && s'.flight[c].op.key != COMPACT_KEY ensures PendingOk(s', s'.flight[c]) {
      FillKeepsPending(s, id, s.flight[c]);
    }
  }

  /** A Create of the filler's own name is refused on account of a row that is not live. */
  lemma FillMisleads(s: State, id: nat, c: nat)
    requires Inv(s) && CanFill(s.table, id) && FillKey(id) !in s.newest
    requires c in s.flight && s.flight[c].op.key == FillKey(id)
    ensures !PendingOk(AfterFill(s, id), s.flight[c]) && s.flight[c].op.Create?
    ensures Clash(AfterFill(s, id).table, s.flight[c].row) && Lookup(AfterFill(s, id).table, FillKey(id)) == None
  {
    var p, t' := s.flight[c], InsertRow(s.table, Filler(id));
    FillersAreNotReserved(id);
    assert PendingOk(s, p);
    NewestIsNewest(s.table, FillKey(id));
    InsertRowKeeps(s.table, Filler(id));
    NewestAfterInsert(s.table, t', Filler(id), FillKey(id));
    assert Filler(id) in t';
  }

  /** Under a name that no row has had, a fill keeps the invariant exactly when no operation is about to write it. */
  lemma FillKeepsInvIff(s: State, id: nat)
    requires Inv(s) && CanFill(s.table, id) && id <= s.counter && FillKey(id) !in s.newest
    ensures Inv(AfterFill(s, id)) <==> forall c :: c in s.flight ==> s.flight[c].op.key != FillKey(id)
  {
    FillersAreNotReserved(id);
    if forall c :: c in s.flight ==> s.flight[c].op.key != FillKey(id) {
      FillKeepsInv(s, id);
    } else {
      var c :| c in s.flight && s.flight[c].op.key == FillKey(id);
      FillMisleads(s, id, c);
    }
  }

  lemma AppendKeepsInv(s: State, c: nat, id: int)
    requires Inv(s) && Enabled(s, Append(c, id), true)
    ensures Inv(Next(s, Append(c, id), true))
  {
    var s' := Next(s, Append(c, id), true);
    if Clash(s.table, s.flight[c].row) {
      forall k | k != COMPACT_KEY ensures HistoryOk(s', k) { assert HistoryOk(s, k); }
      forall d | d in s'.flight && s'.flight[d].op.key != COMPACT_KEY ensures PendingOk(s', s'.flight[d]) {
        assert PendingOk(s, s.flight[d]);
      }
    } else if s.flight[c].op.key == COMPACT_KEY {
      ReservedAppendKeepsInv(s, c, id);
    } else {
      IndexCatchesStale(s, c);
      assert PendingOk(s, s.flight[c]);
      AttemptGoesThrough(s.table, s.flight[c].op, id);
      forall k | k != COMPACT_KEY ensures HistoryOk(s', k) { AppendKeepsHistory(s, c, id, k); }
      forall d | d in s'.flight && s'.flight[d].op.key != COMPACT_KEY ensures PendingOk(s', s'.flight[d]) {
        AppendBlocksOthers(s, c, id, s.flight[d]);
      }
    }
  }

  /**
   A successful append did, at that moment and in one piece, what its whole operation does without
   interruption: the decision taken on the earlier read is the decision the present table calls for.
   */
  lemma AppendIsAtomic(s: State, c: nat, id: int)
    requires Inv(s) && Enabled(s, Append(c, id), true) && s.flight[c].op.key != COMPACT_KEY
    requires ReadsItself(SqlLike, s.table, s.flight[c].op.key) && !Clash(s.table, s.flight[c].row)
    ensures var op := s.flight[c].op; var row := s.flight[c].row;
            Exec(s.table, op, id) == (Next(s, Append(c, id), true).table, Done(op, Due(s.table, op), row, id))
  {
    IndexCatchesStale(s, c);
    assert PendingOk(s, s.flight[c]);
    ExecAttempts(s.table, s.flight[c].op, id);
  }

  /** What can be said of a state some steps after another. */
  ghost predicate Later(s: State, s': State) {
    && s.counter <= s'.counter
    && forall k :: k != COMPACT_KEY && Hist(s, k).Some? ==>
         Hist(s', k).Some? && Hist(s, k).value.id <= Hist(s', k).value.id
  }

  lemma StepIsLater(s: State, step: Step, indexed: bool)
    requires Inv(s) && Enabled(s, step, indexed)
    ensures Later(s, Next(s, step, indexed))
  {
    forall k | k != COMPACT_KEY && Hist(s, k).Some?
      ensures Hist(Next(s, step, indexed), k).Some?
      ensures Hist(s, k).value.id <= Hist(Next(s, step, indexed), k).value.id
    {
      assert HistoryOk(s, k);
    }
  }

  /** A refused operation had company: a row of its key was appended after its read, for Create a live one. */
  lemma RefusedWasOvertaken(s: State, c: nat, id: int)
    requires Inv(s) && Enabled(s, Append(c, id), true) && s.flight[c].op.key != COMPACT_KEY
    requires Clash(s.table, s.flight[c].row)
    ensures Next(s, Append(c, id), true) == s.(flight := s.flight - {c})
    ensures exists y :: y in s.table && y.name == s.flight[c].op.key && s.flight[c].readRev < y.id
                        && (s.flight[c].op.Create? ==> !y.deleted)
    ensures Hist(s, s.flight[c].op.key).Some? && s.flight[c].readRev < Hist(s, s.flight[c].op.key).value.id
  {
    var p := s.flight[c];
    IndexCatchesStale(s, c);
    assert PendingOk(s, p) && HistoryOk(s, p.op.key);
    var y :| y in s.table && Blocks(y, p);
    NewestIsNewest(s.table, p.op.key);
  }

  /**
   Update and Delete read once more, possibly some steps later (in s'), and answer from that. For Update that is the
   answer of compare-and-set at that moment. A refused Delete always answers "not deleted", as compare-and-set does
   exactly if the Delete is conditional and the key is there, and shows the key's last version: the present one if the
   key is there, else its tombstone, or what it had read itself if that has been compacted.
   */
  lemma RefusalIsHonest(s: State, c: nat, id: int, s': State, m: Store, id': int)
    requires Inv(s) && Enabled(s, Append(c, id), true) && s.flight[c].op.key != COMPACT_KEY
    requires Clash(s.table, s.flight[c].row) && !s.flight[c].op.Create?
    requires Inv(s') && Later(s, s') && Shows(s'.table, m)
    ensures var op := s.flight[c].op;
            var reply := Refused(op, Due(s'.table, op), s.flight[c].seen);
            var answer := MapStep(m, op, id').1;
            && (op.Update? ==> reply == answer)
            && (op.Delete? ==> !reply.ok && (reply.ok == answer.ok <==> op.revision != 0 && op.key in m))
            && (op.Delete? && op.key in m ==> reply.kv == Some(m[op.key]))
            && s.flight[c].seen.Some?
            && (op.Delete? && op.key !in m ==>
                  reply.kv == if Newest(s'.table, op.key).Some? then LastVersion(s'.table, op.key)
                              else Some(KvOf(s.flight[c].seen.value)))
            && (op.Delete? && op.revision != 0 && op.key in m ==> reply == answer)
  {
    var p := s.flight[c];
    RefusedWasOvertaken(s, c, id);
    assert PendingOk(s, p) && HistoryOk(s', p.op.key);
    assert Lookup(s'.table, p.op.key) == At(m, p.op.key);
  }

  /** A lease that ran out deletes the very version that carried it, or nothing. */
  lemma LeaseExpiryHitsItsVersion(s: State, c: nat, id: int)
    requires Inv(s) && Enabled(s, Append(c, id), true) && s.flight[c].op.key != COMPACT_KEY
    requires s.flight[c].op.Delete? && s.flight[c].op.revision != 0
    requires !Clash(s.table, s.flight[c].row)
    ensures var op := s.flight[c].op;
            Lookup(s.table, op.key).Some? && Lookup(s.table, op.key).value.modRev == op.revision
  {
    IndexCatchesStale(s, c);
    assert PendingOk(s, s.flight[c]);
  }

  /** Without the index an append keeps the chains exactly when nothing was appended for its key since its read. */
  lemma UnindexedAppend(s: State, c: nat, id: int)
    requires Inv(s) && Enabled(s, Append(c, id), false) && s.flight[c].op.key != COMPACT_KEY
    ensures Chained(Next(s, Append(c, id), false).table) <==> Current(s, s.flight[c])
    ensures Current(s, s.flight[c]) ==> Next(s, Append(c, id), false) == Next(s, Append(c, id), true)
  {
    var p := s.flight[c];
    var z := p.row.(id := id);
    IndexCatchesStale(s, c);
    AppendKeepsChains(s.table, z);
    assert PendingOk(s, p);
    NewestIsNewest(s.table, p.op.key);
    if Current(s, p) {
      AttemptContinues(s.table, p.op, id);
    } else {
      var y :| y in s.table && Blocks(y, p);
      assert Linked(s.table, y);
    }
  }
}
