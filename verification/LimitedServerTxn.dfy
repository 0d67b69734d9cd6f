/**
 The etcd front end: which transactions the limited server recognises, what it makes of them, and how that
 compares with etcd's own reading of a transaction.
 */
module LimitedServerTxn {
  import opened Tables
  import opened SqlQueries
  import opened PointReads
  import opened Compaction
  import opened Operations
  import opened LogStructuredStore

  datatype Target = VERSION | CREATE | MOD | VALUE | LEASE
  datatype Relation = EQUAL | GREATER | LESS | NOT_EQUAL
  datatype Compare = Compare(target: Target, relation: Relation, key: Key, modRevision: int)

  datatype Request =
    | RangeRequest(key: Key)
    | PutRequest(key: Key, value: Bytes, lease: int, ignoreValue: bool, ignoreLease: bool, prevKv: bool)
    | DeleteRangeRequest(key: Key, rangeEnd: Key)

  datatype Txn = Txn(compare: seq<Compare>, success: seq<Request>, failure: seq<Request>)

  /** What the dispatcher calls. */
  datatype Call =
    | CreateCall(put: Request)
    | DeleteCall(revision: int, key: Key)
    | UpdateCall(revision: int, key: Key, value: Bytes, lease: int)
    | CompactCall
    | Unsupported

  datatype Body = NoBody | PutBody | RangeBody(kvs: seq<KeyValue>) | DeleteRangeBody(prevKvs: seq<KeyValue>)

  datatype Result =
    | Failed
    | Response(revision: int, succeeded: bool, body: Body)

  predicate ComparesMod(txn: Txn) {
    |txn.compare| == 1 && txn.compare[0].target == MOD && txn.compare[0].relation == EQUAL
  }

  predicate IsCreate(txn: Txn) {
    && ComparesMod(txn)
    && txn.compare[0].modRevision == 0
    && |txn.failure| == 0
    && |txn.success| == 1
    && txn.success[0].PutRequest?
  }

  predicate IsUnconditionalDelete(txn: Txn) {
    && |txn.compare| == 0
    && |txn.failure| == 0
    && |txn.success| == 2
    && txn.success[0].RangeRequest?
    && txn.success[1].DeleteRangeRequest?
  }

  predicate IsConditionalDelete(txn: Txn) {
    && ComparesMod(txn)
    && |txn.failure| == 1
    && txn.failure[0].RangeRequest?
    && |txn.success| == 1
    && txn.success[0].DeleteRangeRequest?
  }

  predicate IsUpdate(txn: Txn) {
    && ComparesMod(txn)
    && |txn.success| == 1
    && txn.success[0].PutRequest?
    && |txn.failure| == 1
    && txn.failure[0].RangeRequest?
  }

  predicate IsCompact(txn: Txn) {
    && |txn.compare| == 1
    && txn.compare[0].target == VERSION && txn.compare[0].relation == EQUAL
    && |txn.success| == 1
    && txn.success[0].PutRequest?
    && |txn.failure| == 1
    && txn.failure[0].RangeRequest?
    && txn.compare[0].key == COMPACT_KEY
  }

  function Classify(txn: Txn): Call {
    if IsCreate(txn) then CreateCall(txn.success[0])
    else if IsUnconditionalDelete(txn) then DeleteCall(0, txn.success[1].key)
    else if IsConditionalDelete(txn) then DeleteCall(txn.compare[0].modRevision, txn.success[0].key)
    else if IsUpdate(txn) then
      UpdateCall(txn.compare[0].modRevision, txn.compare[0].key, txn.success[0].value, txn.success[0].lease)
    else if IsCompact(txn) then CompactCall
    else Unsupported
  }

  function ToKvs(kv: Option<KeyValue>): seq<KeyValue> {
    if kv.Some? then [kv.value] else []
  }

  const EMPTY_KV := KeyValue([], 0, 0, [], 0)

  /** The options of a put that the create handler does not support. */
  predicate Flagged(put: Request)
    requires put.PutRequest?
  {
    put.ignoreLease || put.ignoreValue || put.prevKv
  }

  /** Dispatch and handlers together, on a table: the table they leave and the response. */
  function Handle(t: seq<Row>, txn: Txn, id: int): (seq<Row>, Result) {
    match Classify(txn)
    case CreateCall(put) =>
      if put.PutRequest? && !Flagged(put) then
        var (t', reply) := Exec(t, Op.Create(put.key, put.value, put.lease), id);
        (t', Response(MaxId(t'), !reply.keyExists, if reply.keyExists then NoBody else PutBody))
      else (t, Failed)
    case DeleteCall(revision, key) =>
      var (t', reply) := Exec(t, Op.Delete(key, revision), id);
      (t', Response(MaxId(t'), reply.ok,
                    if reply.ok then DeleteRangeBody(ToKvs(reply.kv)) else RangeBody(ToKvs(reply.kv))))
    case UpdateCall(revision, key, value, lease) =>
      if revision == 0 then
        var (t', reply) := Exec(t, Op.Create(key, value, lease), id);
        (t', if reply.keyExists then Failed else Response(MaxId(t'), true, PutBody))
      else
        var (t', reply) := Exec(t, Op.Update(key, value, revision, lease), id);
        (t', Response(MaxId(t'), reply.ok, if reply.ok then PutBody else RangeBody(ToKvs(reply.kv))))
    case CompactCall => (t, Response(0, false, RangeBody([EMPTY_KV])))
    case Unsupported => (t, Failed)
  }

  class LimitedServer {
    const backend: LogStructured

    constructor (backend: LogStructured)
      ensures this.backend == backend
    {
      this.backend := backend;
    }

    method CreateTxn(put: Request) returns (result: Result)
      requires put.PutRequest? && backend.Valid()
      modifies backend
      ensures backend.Valid()
      ensures if Flagged(put) then backend.rows == old(backend.rows) && result == Failed
              else
                var op := Op.Create(put.key, put.value, put.lease);
                var (t, reply) := Exec(old(backend.rows), op, old(backend.sequence) + 1);
                && backend.rows == t
                && result == Response(MaxId(t), !reply.keyExists, if reply.keyExists then NoBody else PutBody)
    {
      if put.ignoreLease || put.ignoreValue || put.prevKv {
        return Failed;
      }
      var rev, keyExists := backend.Create(put.key, put.value, put.lease);
      result := if keyExists then Response(rev, false, NoBody) else Response(rev, true, PutBody);
    }

    method DeleteTxn(key: Key, revision: int) returns (result: Result)
      requires backend.Valid()
      modifies backend
      ensures backend.Valid()
      ensures var (t, reply) := Exec(old(backend.rows), Op.Delete(key, revision), old(backend.sequence) + 1);
              && backend.rows == t
              && result == Response(MaxId(t), reply.ok,
                   if reply.ok then DeleteRangeBody(ToKvs(reply.kv)) else RangeBody(ToKvs(reply.kv)))
    {
      var rev, kv, ok := backend.Delete(key, revision);
      if !ok {
        return Response(rev, false, RangeBody(ToKvs(kv)));
      }
      return Response(rev, true, DeleteRangeBody(ToKvs(kv)));
    }

    method UpdateTxn(revision: int, key: Key, value: Bytes, lease: int) returns (result: Result)
      requires backend.Valid()
      modifies backend
      ensures backend.Valid()
      ensures revision == 0 ==>
                var (t, reply) := Exec(old(backend.rows), Op.Create(key, value, lease), old(backend.sequence) + 1);
                backend.rows == t && result == if reply.keyExists then Failed else Response(MaxId(t), true, PutBody)
      ensures revision != 0 ==>
                var op := Op.Update(key, value, revision, lease);
                var (t, reply) := Exec(old(backend.rows), op, old(backend.sequence) + 1);
                && backend.rows == t
                && result == Response(MaxId(t), reply.ok, if reply.ok then PutBody else RangeBody(ToKvs(reply.kv)))
    {
      var rev, kv, ok, keyExists := 0, None, true, false;
      if revision == 0 {
        rev, keyExists := backend.Create(key, value, lease);
      } else {
        rev, kv, ok := backend.Update(key, value, revision, lease);
      }
      if keyExists {
        return Failed;
      }
      if ok {
        return Response(rev, true, PutBody);
      }
      return Response(rev, false, RangeBody(ToKvs(kv)));
    }

    method Dispatch(txn: Txn) returns (result: Result)
      requires backend.Valid()
      modifies backend
      ensures backend.Valid()
      ensures (backend.rows, result) == Handle(old(backend.rows), txn, old(backend.sequence) + 1)
    {
      match Classify(txn)
      case CreateCall(put) => result := CreateTxn(put);
      case DeleteCall(revision, key) => result := DeleteTxn(key, revision);
      case UpdateCall(revision, key, value, lease) => result := UpdateTxn(revision, key, value, lease);
      case CompactCall => result := Response(0, false, RangeBody([EMPTY_KV]));
      case Unsupported => result := Failed;
    }
  }

  /* Every form of transaction, spelled out. */

  /** A key written at `id`, in the map. */
  function Put(m: Store, key: Key, value: Bytes, lease: int, id: int): Store {
    m[key := KeyValue(key, if key in m then m[key].createRev else id, id, value, lease)]
  }

  /** A put goes through, or it changes nothing and shows what is there. */
  lemma Puts(t: seq<Row>, m: Store, op: Op, id: int)
    requires Serves(t, m, id) && op.key != COMPACT_KEY && ReadsItself(SqlLike, t, op.key) && !op.Delete?
    ensures var (h, reply) := Exec(t, op, id);
            if (if op.Create? then op.key !in m else op.key in m && m[op.key].modRev == op.revision) then
              Shows(h, Put(m, op.key, op.value, op.lease, id)) && MaxId(h) == id && reply.ok && !reply.keyExists
            else
              h == t && !reply.ok && (reply.keyExists <==> op.Create?) && (op.Update? ==> reply.kv == At(m, op.key))
  {
    ExecRefinesMap(t, m, op, id);
    MaxIdOfWrite(t, op, id);
  }

  lemma ClassifiesUpdate(key: Key, rev: int, put: Request, shown: Request)
    requires put.PutRequest? && shown.RangeRequest?
    ensures Classify(Txn([Compare(MOD, EQUAL, key, rev)], [put], [shown]))
         == UpdateCall(rev, key, put.value, put.lease)
  {}

  /** "Put this value if the key is at revision `rev`, or else show it": the put counts under the compared key. */
  lemma UpdateForm(t: seq<Row>, m: Store, id: int, key: Key, rev: int, put: Request, shown: Request)
    requires Serves(t, m, id) && key != COMPACT_KEY && ReadsItself(SqlLike, t, key)
    requires put.PutRequest? && shown.RangeRequest?
    ensures var (h, result) := Handle(t, Txn([Compare(MOD, EQUAL, key, rev)], [put], [shown]), id);
            if rev == 0 then
              if key in m then h == t && result == Failed
              else Shows(h, Put(m, key, put.value, put.lease, id)) && result == Response(id, true, PutBody)
            else if key in m && m[key].modRev == rev then
              Shows(h, Put(m, key, put.value, put.lease, id)) && result == Response(id, true, PutBody)
            else
              h == t && result == Response(MaxId(t), false, RangeBody(if key in m then [m[key]] else []))
  {
    ClassifiesUpdate(key, rev, put, shown);
    if rev == 0 {
      Puts(t, m, Op.Create(key, put.value, put.lease), id);
    } else {
      Puts(t, m, Op.Update(key, put.value, rev, put.lease), id);
    }
  }

  lemma ClassifiesCreate(compared: Key, put: Request)
    requires put.PutRequest?
    ensures Classify(Txn([Compare(MOD, EQUAL, compared, 0)], [put], [])) == CreateCall(put)
  {}

  /** "Put if absent": the compared key does not count, and options are an error. */
  lemma CreateForm(t: seq<Row>, m: Store, id: int, compared: Key, put: Request)
    requires put.PutRequest?
    requires Serves(t, m, id) && put.key != COMPACT_KEY && ReadsItself(SqlLike, t, put.key)
    ensures var (h, result) := Handle(t, Txn([Compare(MOD, EQUAL, compared, 0)], [put], []), id);
            if put.ignoreValue || put.ignoreLease || put.prevKv then h == t && result == Failed
            else if put.key in m then h == t && result == Response(MaxId(t), false, NoBody)
            else Shows(h, Put(m, put.key, put.value, put.lease, id)) && result == Response(id, true, PutBody)
  {
    ClassifiesCreate(compared, put);
    Puts(t, m, Op.Create(put.key, put.value, put.lease), id);
  }

  /** What a delete leaves and answers; of an absent key it shows the tombstone, if there still is one. */
  ghost predicate Deletes(t: seq<Row>, m: Store, id: int, key: Key, rev: int, h: seq<Row>, result: Result) {
    if key !in m then
      h == t && result == Response(MaxId(t), true, DeleteRangeBody(ToKvs(LastVersion(t, key))))
    else if rev == 0 || m[key].modRev == rev then
      Shows(h, m - {key}) && result == Response(id, true, DeleteRangeBody([m[key]]))
    else
      h == t && result == Response(MaxId(t), false, RangeBody([m[key]]))
  }

  /** "Delete if at revision `rev`, or else show": the key is that of the delete, and its range end does not count. */
  lemma ConditionalDeleteForm(t: seq<Row>, m: Store, id: int, compared: Key, rev: int, key: Key, rangeEnd: Key,
                              shown: Request)
    requires Serves(t, m, id) && key != COMPACT_KEY && ReadsItself(SqlLike, t, key) && shown.RangeRequest?
    ensures var txn := Txn([Compare(MOD, EQUAL, compared, rev)], [DeleteRangeRequest(key, rangeEnd)], [shown]);
            Deletes(t, m, id, key, rev, Handle(t, txn, id).0, Handle(t, txn, id).1)
  {
    ExecRefinesMap(t, m, Op.Delete(key, rev), id);
    MaxIdOfWrite(t, Op.Delete(key, rev), id);
  }

  /** "Show, and delete". */
  lemma UnconditionalDeleteForm(t: seq<Row>, m: Store, id: int, key: Key, rangeEnd: Key, shown: Request)
    requires Serves(t, m, id) && key != COMPACT_KEY && ReadsItself(SqlLike, t, key) && shown.RangeRequest?
    ensures var txn := Txn([], [shown, DeleteRangeRequest(key, rangeEnd)], []);
            Deletes(t, m, id, key, 0, Handle(t, txn, id).0, Handle(t, txn, id).1)
  {
    ExecRefinesMap(t, m, Op.Delete(key, 0), id);
    MaxIdOfWrite(t, Op.Delete(key, 0), id);
  }

  /** The API server's compaction check always fails, with one empty key in the answer. */
  lemma CompactForm(t: seq<Row>, id: int, version: int, put: Request, shown: Request)
    requires put.PutRequest? && shown.RangeRequest?
    ensures Handle(t, Txn([Compare(VERSION, EQUAL, COMPACT_KEY, version)], [put], [shown]), id)
         == (t, Response(0, false, RangeBody([KeyValue([], 0, 0, [], 0)])))
  {}

  /** The five forms. */
  ghost predicate HasForm(txn: Txn) {
    || (exists k, rev, put: Request, q: Request ::
          put.PutRequest? && q.RangeRequest? && txn == Txn([Compare(MOD, EQUAL, k, rev)], [put], [q]))
    || (exists c, put: Request :: put.PutRequest? && txn == Txn([Compare(MOD, EQUAL, c, 0)], [put], []))
    || (exists c, rev, k, e, q: Request ::
          q.RangeRequest? && txn == Txn([Compare(MOD, EQUAL, c, rev)], [DeleteRangeRequest(k, e)], [q]))
    || (exists k, e, q: Request :: q.RangeRequest? && txn == Txn([], [q, DeleteRangeRequest(k, e)], []))
    || (exists v, put: Request, q: Request ::
          put.PutRequest? && q.RangeRequest? && txn == Txn([Compare(VERSION, EQUAL, COMPACT_KEY, v)], [put], [q]))
  }

  lemma ClassifiedHasForm(txn: Txn)
    requires Classify(txn) != Unsupported
    ensures HasForm(txn)
  {
    if |txn.compare| == 1 {
      var c := txn.compare[0];
      assert txn.compare == [Compare(c.target, c.relation, c.key, c.modRevision)];
    }
    if |txn.success| == 2 {
      assert txn.success == [txn.success[0], txn.success[1]];
    } else {
      assert txn.success == [txn.success[0]];
    }
    if |txn.failure| == 1 { assert txn.failure == [txn.failure[0]]; }
  }

  /** Everything else is an error, and leaves the table alone. */
  lemma OtherForms(t: seq<Row>, txn: Txn, id: int)
    requires !HasForm(txn)
    ensures Handle(t, txn, id) == (t, Failed)
  {
    if Classify(txn) != Unsupported { ClassifiedHasForm(txn); }
  }

  /* etcd's own semantics of a transaction that compares mod revisions for equality. */

  predicate Holds(m: Store, c: Compare) {
    c.target == MOD && c.relation == EQUAL && c.modRevision == (if c.key in m then m[c.key].modRev else 0)
  }

  predicate Succeeds(m: Store, txn: Txn) {
    forall c :: c in txn.compare ==> Holds(m, c)
  }

  /** Half-open ranges of byte strings; an empty end means the one key, a NUL everything from the key on. */
  predicate InRange(key: Key, rangeEnd: Key, k: Key) {
    if rangeEnd == [] then k == key
    else !LessBytes(k, key) && (rangeEnd == [0] || LessBytes(k, rangeEnd))
  }

  /** The flags keep what the key has now, and are an error for a key that does not exist. */
  predicate KeepsCurrent(put: Request)
    requires put.PutRequest?
  {
    put.ignoreValue || put.ignoreLease
  }

  function ApplyRequest(m: Store, r: Request, id: int): Option<Store> {
    match r
    case RangeRequest(_) => Some(m)
    case PutRequest(key, value, lease, ignoreValue, ignoreLease, _) =>
      if (ignoreValue || ignoreLease) && key !in m then None
      else
        Some(m[key := KeyValue(key, if key in m then m[key].createRev else id, id,
                               if ignoreValue then m[key].value else value,
                               if ignoreLease then m[key].lease else lease)])
    case DeleteRangeRequest(key, rangeEnd) => Some(map k | k in m && !InRange(key, rangeEnd, k) :: m[k])
  }

  function Apply(m: Store, requests: seq<Request>, id: int): Option<Store>
    decreases |requests|
  {
    if requests == [] then Some(m)
    else
      match ApplyRequest(m, requests[0], id)
      case None => None
      case Some(m') => Apply(m', requests[1..], id)
  }

  datatype Outcome = Rejected | Committed(store: Store, succeeded: bool)

  function EtcdTxn(m: Store, txn: Txn, id: int): Outcome {
    match Apply(m, if Succeeds(m, txn) then txn.success else txn.failure, id)
    case None => Rejected
    case Some(m') => Committed(m', Succeeds(m, txn))
  }

  function EtcdStore(m: Store, txn: Txn, id: int): Store {
    match EtcdTxn(m, txn, id)
    case Rejected => m
    case Committed(m', _) => m'
  }

  /* The store operation a transaction comes down to. */

  /** A transaction the server takes as a create, delete or update of a client key. */
  predicate Recognised(txn: Txn) {
    match Classify(txn)
    case CreateCall(put) => put.PutRequest? && put.key != COMPACT_KEY
    case DeleteCall(_, key) => key != COMPACT_KEY
    case UpdateCall(_, key, _, _) => key != COMPACT_KEY
    case _ => false
  }

  /** The list by which its key is read takes the key for itself, as it does for every exact key. */
  ghost predicate ReadsItsKey(t: seq<Row>, txn: Txn) {
    ReadsItself(SqlLike, t, OpOf(Classify(txn)).key)
  }

  function OpOf(call: Call): Op {
    match call
    case CreateCall(PutRequest(key, value, lease, _, _, _)) => Op.Create(key, value, lease)
    case UpdateCall(revision, key, value, lease) =>
      if revision == 0 then Op.Create(key, value, lease) else Op.Update(key, value, revision, lease)
    case DeleteCall(revision, key) => Op.Delete(key, revision)
    case _ => Op.Delete([], 0)
  }

  /** The create handler refuses puts with options; the update handler does not look at them. */
  predicate Refuses(txn: Txn) {
    match Classify(txn)
    case CreateCall(put) => put.PutRequest? && Flagged(put)
    case _ => false
  }

  /** The handlers only wrap the reply of the operation. */
  lemma HandleIsExec(t: seq<Row>, txn: Txn, id: int)
    requires Recognised(txn)
    ensures Refuses(txn) ==> Handle(t, txn, id) == (t, Failed)
    ensures !Refuses(txn) ==>
              var op := OpOf(Classify(txn)); var (t', reply) := Exec(t, op, id); var (h, result) := Handle(t, txn, id);
              && h == t'
              && if Classify(txn).UpdateCall? && op.Create? && reply.keyExists then result == Failed
                 else result.Response? && result.revision == MaxId(t')
                      && result.succeeded == if op.Create? then !reply.keyExists else reply.ok
  {}

  /** What a recognised transaction does to the map, in terms of compare-and-set. */
  function StoreAfter(m: Store, txn: Txn, id: int): Store {
    if Refuses(txn) then m else MapStep(m, OpOf(Classify(txn)), id).0
  }

  /** ... and what it reports: None for an error. */
  function Reported(m: Store, txn: Txn, id: int): Option<bool> {
    var op, reply := OpOf(Classify(txn)), MapStep(m, OpOf(Classify(txn)), id).1;
    if Refuses(txn) || (Classify(txn).UpdateCall? && op.Create? && reply.keyExists) then None
    else Some(if op.Create? then !reply.keyExists else reply.ok)
  }

  /** A recognised transaction is one compare-and-set on the map the table shows. */
  lemma HandleOnMap(t: seq<Row>, m: Store, txn: Txn, id: int)
    requires Serves(t, m, id) && Recognised(txn) && ReadsItsKey(t, txn)
    ensures var (h, result) := Handle(t, txn, id);
            && Shows(h, StoreAfter(m, txn, id)) && WellFormed(h) && Chained(h)
            && match Reported(m, txn, id)
               case None => result == Failed
               case Some(succeeded) =>
                 result.Response? && result.succeeded == succeeded && result.revision == MaxId(h)
  {
    HandleIsExec(t, txn, id);
    if !Refuses(txn) { ExecRefinesMap(t, m, OpOf(Classify(txn)), id); }
  }

  /* Against etcd. */

  /** Versions of client keys are positive and older than a free id. */
  ghost predicate Versions(m: Store, id: int) {
    forall k :: k in m && k != COMPACT_KEY ==> 0 < m[k].modRev < id
  }

  lemma VersionsOfTable(t: seq<Row>, m: Store, id: int)
    requires Serves(t, m, id)
    ensures Versions(m, id)
  {
    forall k | k in m && k != COMPACT_KEY ensures 0 < m[k].modRev < id {
      assert Lookup(t, k) == At(m, k);
      NewestIsNewest(t, k);
      MaxIdBounds(t, Newest(t, k).value);
    }
  }

  /** Two stores that the same table shows agree on client keys. */
  predicate SameClientKeys(m: Store, n: Store) {
    forall k :: k in m.Keys + n.Keys && k != COMPACT_KEY ==> At(m, k) == At(n, k)
  }

  lemma ShowsBoth(t: seq<Row>, m: Store, n: Store)
    requires Shows(t, m)
    ensures Shows(t, n) <==> SameClientKeys(m, n)
  {
    if SameClientKeys(m, n) {
      forall k | k != COMPACT_KEY ensures Lookup(t, k) == At(n, k) {
        assert Lookup(t, k) == At(m, k);
        if k !in m.Keys + n.Keys { assert k !in m && k !in n; }
      }
    }
    if Shows(t, n) {
      forall k | k in m.Keys + n.Keys && k != COMPACT_KEY ensures At(m, k) == At(n, k) {
        assert Lookup(t, k) == At(m, k) && Lookup(t, k) == At(n, k);
      }
    }
  }

  /** The compared key has the put's turn under etcd: the comparison holds and the put is not an error. */
  predicate EtcdPuts(m: Store, compare: Compare, put: Request)
    requires put.PutRequest?
  {
    Holds(m, compare) && !(KeepsCurrent(put) && put.key !in m)
  }

  /** The put means the compared key, and what its flags would keep is what it carries. */
  predicate PutsTheSame(m: Store, key: Key, put: Request)
    requires put.PutRequest?
  {
    && put.key == key
    && (KeepsCurrent(put) ==> key in m)
    && (put.ignoreValue ==> m[key].value == put.value)
    && (put.ignoreLease ==> m[key].lease == put.lease)
  }

  /** The server deletes the named key if it is there and its own version fits, or none is asked for. */
  predicate ServerDeletes(m: Store, key: Key, revision: int) {
    key in m && (revision == 0 || m[key].modRev == revision)
  }

  /** When the store left is not the one etcd would leave. */
  predicate EffectDiffers(m: Store, txn: Txn)
    requires Recognised(txn)
  {
    match Classify(txn)
    case CreateCall(put) => EtcdPuts(m, txn.compare[0], put) != (!Flagged(put) && put.key !in m)
    case DeleteCall(revision, key) =>
      var d := txn.success[|txn.success| - 1];
      if !Succeeds(m, txn) then ServerDeletes(m, key, revision)
      else
        || (key in m && ServerDeletes(m, key, revision) != InRange(d.key, d.rangeEnd, key))
        || exists k :: k in m && k != COMPACT_KEY && k != key && InRange(d.key, d.rangeEnd, k)
    case UpdateCall(_, key, _, _) => Holds(m, txn.compare[0]) && !PutsTheSame(m, key, txn.success[0])
  }

  /** When the outcome reported is not etcd's. */
  predicate OutcomeDiffers(m: Store, txn: Txn)
    requires Recognised(txn)
  {
    match Classify(txn)
    case CreateCall(put) =>
      var held := Holds(m, txn.compare[0]);
      if Flagged(put) then !held || EtcdPuts(m, txn.compare[0], put)
      else held != (put.key !in m)
    case DeleteCall(revision, key) => (key !in m || ServerDeletes(m, key, revision)) != Succeeds(m, txn)
    case UpdateCall(revision, key, _, _) =>
      || (revision == 0 && key in m)
      || (Holds(m, txn.compare[0]) && !EtcdPuts(m, txn.compare[0], txn.success[0]))
  }

  lemma ApplyOne(m: Store, r: Request, id: int)
    ensures Apply(m, [r], id) == ApplyRequest(m, r, id)
  {
    assert [r][1..] == [];
  }

  /** etcd on a recognised transaction: a range shows, so what counts is the last request of the branch. */
  lemma EtcdEffect(m: Store, txn: Txn, id: int)
    requires Recognised(txn)
    ensures txn.success != [] && (Succeeds(m, txn) <==> |txn.compare| == 0 || Holds(m, txn.compare[0]))
    ensures EtcdTxn(m, txn, id) ==
            if !Succeeds(m, txn) then Committed(m, false)
            else
              match ApplyRequest(m, txn.success[|txn.success| - 1], id)
              case None => Rejected
              case Some(m') => Committed(m', true)
  {
    if |txn.compare| > 0 { assert txn.compare == [txn.compare[0]]; }
    if |txn.failure| > 0 { assert txn.failure == [txn.failure[0]]; ApplyOne(m, txn.failure[0], id); }
    if |txn.success| == 2 {
      assert txn.success[1..] == [txn.success[1]];
      ApplyOne(m, txn.success[1], id);
    } else {
      assert txn.success == [txn.success[0]];
      ApplyOne(m, txn.success[0], id);
    }
  }

  /** A recognised transaction leaves the store etcd would leave except exactly when `EffectDiffers` says so. */
  lemma TxnEffectIsEtcds(t: seq<Row>, m: Store, txn: Txn, id: int)
    requires Serves(t, m, id) && Recognised(txn) && ReadsItsKey(t, txn)
    ensures Shows(Handle(t, txn, id).0, EtcdStore(m, txn, id)) <==> !EffectDiffers(m, txn)
  {
    HandleOnMap(t, m, txn, id);
    ShowsBoth(Handle(t, txn, id).0, StoreAfter(m, txn, id), EtcdStore(m, txn, id));
    VersionsOfTable(t, m, id);
    match Classify(txn)
    case CreateCall(_) => CreatesAgree(m, txn, id);
    case DeleteCall(_, _) => DeletesAgree(m, txn, id);
    case UpdateCall(_, _, _, _) => UpdatesAgree(m, txn, id);
  }

  lemma DifferAt(m: Store, n: Store, k: Key)
    requires k in m.Keys + n.Keys && k != COMPACT_KEY && At(m, k) != At(n, k)
    ensures !SameClientKeys(m, n)
  {}

  lemma CreatesAgree(m: Store, txn: Txn, id: int)
    requires Recognised(txn) && Classify(txn).CreateCall? && Versions(m, id)
    ensures SameClientKeys(StoreAfter(m, txn, id), EtcdStore(m, txn, id)) <==> !EffectDiffers(m, txn)
  {
    var put := Classify(txn).put;
    var kept, etcds := StoreAfter(m, txn, id), EtcdStore(m, txn, id);
    EtcdEffect(m, txn, id);
    if EffectDiffers(m, txn) {
      DifferAt(kept, etcds, put.key);
    } else {
      assert kept == etcds;
    }
  }

  lemma UpdatesAgree(m: Store, txn: Txn, id: int)
    requires Recognised(txn) && Classify(txn).UpdateCall? && Versions(m, id)
    ensures SameClientKeys(StoreAfter(m, txn, id), EtcdStore(m, txn, id)) <==> !EffectDiffers(m, txn)
  {
    var key := Classify(txn).key;
    var kept, etcds := StoreAfter(m, txn, id), EtcdStore(m, txn, id);
    EtcdEffect(m, txn, id);
    if EffectDiffers(m, txn) {
      DifferAt(kept, etcds, key);
    } else {
      assert kept == etcds;
    }
  }

  lemma DeletesAgree(m: Store, txn: Txn, id: int)
    requires Recognised(txn) && Classify(txn).DeleteCall? && Versions(m, id)
    ensures SameClientKeys(StoreAfter(m, txn, id), EtcdStore(m, txn, id)) <==> !EffectDiffers(m, txn)
  {
    var revision, key := Classify(txn).revision, Classify(txn).key;
    var kept, etcds := StoreAfter(m, txn, id), EtcdStore(m, txn, id);
    var d := txn.success[|txn.success| - 1];
    EtcdEffect(m, txn, id);
    forall k ensures At(kept, k) == if k == key && ServerDeletes(m, key, revision) then None else At(m, k) {}
    forall k ensures At(etcds, k) == if Succeeds(m, txn) && InRange(d.key, d.rangeEnd, k) then None else At(m, k) {}
    if At(kept, key) != At(etcds, key) {
      DifferAt(kept, etcds, key);
    } else if k :| k in m && k != COMPACT_KEY && k != key && Succeeds(m, txn) && InRange(d.key, d.rangeEnd, k) {
      DifferAt(kept, etcds, k);
    }
  }

  /** The outcome is etcd's: an error there and here, or the same result of the comparison. */
  predicate SameOutcome(reported: Option<bool>, outcome: Outcome) {
    match outcome
    case Rejected => reported == None
    case Committed(_, succeeded) => reported == Some(succeeded)
  }

  lemma OutcomesAgree(m: Store, txn: Txn, id: int)
    requires Recognised(txn) && Versions(m, id)
    ensures SameOutcome(Reported(m, txn, id), EtcdTxn(m, txn, id)) <==> !OutcomeDiffers(m, txn)
  {
    EtcdEffect(m, txn, id);
  }

  /** ... and the outcome reported is etcd's except exactly as `OutcomeDiffers` says. */
  lemma TxnOutcomeIsEtcds(t: seq<Row>, m: Store, txn: Txn, id: int)
    requires Serves(t, m, id) && Recognised(txn) && ReadsItsKey(t, txn)
    ensures var result := Handle(t, txn, id).1;
            SameOutcome(if result.Failed? then None else Some(result.succeeded), EtcdTxn(m, txn, id))
            <==> !OutcomeDiffers(m, txn)
  {
    HandleOnMap(t, m, txn, id);
    VersionsOfTable(t, m, id);
    OutcomesAgree(m, txn, id);
  }

  /* The usual case: one key, no options, no ranges. */

  predicate PlainOneKey(txn: Txn) {
    match Classify(txn)
    case CreateCall(put) => put.PutRequest? && put.key == txn.compare[0].key && !Flagged(put)
    case DeleteCall(_, key) =>
      (forall c :: c in txn.compare ==> c.key == key)
      && forall r :: r in txn.success && r.DeleteRangeRequest? ==> r.rangeEnd == []
    case UpdateCall(_, key, _, _) => txn.success[0].PutRequest? && txn.success[0].key == key && !Flagged(txn.success[0])
    case _ => false
  }

  /** "Delete this key if it does not exist", sent for a key that does. */
  predicate DeletesAgainstCompare(m: Store, txn: Txn) {
    && Classify(txn).DeleteCall? && |txn.compare| == 1
    && Classify(txn).revision == 0 && Classify(txn).key in m
  }

  /** "Delete this version", sent for a key that does not exist. */
  predicate DeletesNothing(m: Store, txn: Txn) {
    && Classify(txn).DeleteCall?
    && Classify(txn).revision != 0 && Classify(txn).key !in m
  }

  /** "Create, or else show me", sent for a key that exists. */
  predicate CreatesOverLive(m: Store, txn: Txn) {
    && Classify(txn).UpdateCall?
    && Classify(txn).revision == 0 && Classify(txn).key in m
  }

  /** There the differences come down to one situation for the store, and three for the outcome. */
  lemma PlainTransactions(m: Store, txn: Txn, id: int)
    requires Recognised(txn) && PlainOneKey(txn) && Versions(m, id)
    ensures EffectDiffers(m, txn) <==> DeletesAgainstCompare(m, txn)
    ensures OutcomeDiffers(m, txn) <==>
              DeletesAgainstCompare(m, txn) || DeletesNothing(m, txn) || CreatesOverLive(m, txn)
  {
    var key := OpOf(Classify(txn)).key;
    EtcdEffect(m, txn, id);
    if |txn.compare| > 0 { assert txn.compare[0] in txn.compare; }
    if Classify(txn).DeleteCall? {
      var d := txn.success[|txn.success| - 1];
      assert d in txn.success;
      assert forall k :: InRange(d.key, d.rangeEnd, k) <==> k == key;
    }
  }

  ghost predicate Wrote(t: seq<Row>, op: Op, id: int)
    requires !op.Delete?
  {
    && MaxId(t) == id && Lookup(t, op.key).Some? && Lookup(t, op.key).value.modRev == id
    && Lookup(t, op.key).value.value == op.value && Lookup(t, op.key).value.lease == op.lease
  }

  /** What the reply to an operation says about the store before and after it. */
  lemma ReplyShowsStore(t: seq<Row>, m: Store, op: Op, id: int)
    requires Serves(t, m, id) && op.key != COMPACT_KEY && ReadsItself(SqlLike, t, op.key)
    ensures var (h, reply) := Exec(t, op, id);
            match op
            case Create(_, _, _) => if reply.keyExists then op.key in m else Wrote(h, op, id)
            case Update(_, _, _, _) => if reply.ok then Wrote(h, op, id) else reply.kv == At(m, op.key)
            case Delete(_, _) =>
              if reply.ok then Lookup(h, op.key).None? && (op.key in m ==> reply.kv == Some(m[op.key]))
              else reply.kv == At(m, op.key)
  {
    ExecRefinesMap(t, m, op, id);
    MaxIdOfWrite(t, op, id);
    assert Lookup(Exec(t, op, id).0, op.key) == At(MapStep(m, op, id).0, op.key);
    if !op.Delete? && Exec(t, op, id).0 == t { assert MapStep(m, op, id).0 == m; }
  }

  /** What a response shows is what the store holds: the present version on failure, the deleted one on delete. */
  lemma TxnBodyShowsStore(t: seq<Row>, m: Store, txn: Txn, id: int)
    requires Serves(t, m, id) && Recognised(txn) && ReadsItsKey(t, txn) && Handle(t, txn, id).1.Response?
    ensures var op := OpOf(Classify(txn)); var (h, result) := Handle(t, txn, id);
            match result.body
            case NoBody => Classify(txn).CreateCall? && !result.succeeded && op.key in m
            case PutBody => result.succeeded && result.revision == id && !op.Delete? && Wrote(h, op, id)
            case RangeBody(kvs) => !result.succeeded && kvs == ToKvs(At(m, op.key))
            case DeleteRangeBody(prevKvs) =>
              result.succeeded && Lookup(h, op.key).None? && (op.key in m ==> prevKvs == [m[op.key]])
  {
    HandleIsExec(t, txn, id);
    BodyOfReply(t, txn, id);
    ReplyShowsStore(t, m, OpOf(Classify(txn)), id);
  }

  lemma BodyOfReply(t: seq<Row>, txn: Txn, id: int)
    requires Recognised(txn) && Handle(t, txn, id).1.Response?
    ensures !Refuses(txn)
    ensures var op := OpOf(Classify(txn)); var (_, reply) := Exec(t, op, id);
            Handle(t, txn, id).1.body ==
              if op.Create? then (if reply.keyExists then NoBody else PutBody)
              else if !reply.ok then RangeBody(ToKvs(reply.kv))
              else if op.Update? then PutBody
              else DeleteRangeBody(ToKvs(reply.kv))
    ensures OpOf(Classify(txn)).Create? && Exec(t, OpOf(Classify(txn)), id).1.keyExists ==> Classify(txn).CreateCall?
  {}

  lemma MaxIdOfWrite(t: seq<Row>, op: Op, id: int)
    requires WellFormed(t) && Chained(t) && MaxId(t) < id && 0 < id
    requires op.key != COMPACT_KEY && ReadsItself(SqlLike, t, op.key)
    ensures Exec(t, op, id).0 != t ==> MaxId(Exec(t, op, id).0) == id
  {
    ReadIsDue(t, op);
    if Decide(op, Due(t, op)).Attempt? {
      AttemptGoesThrough(t, op, id);
      ExecAttempts(t, op, id);
    }
  }
}
