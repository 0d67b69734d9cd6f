/**
 Row ids under DDS: a topic holds the largest id; allocating takes everything from the node's reader, adds one
 and publishes the result, which comes back to the readers of all nodes some time later.
 */
module Allocator {

  /** A sample of the topic in a reader's cache. */
  datatype Sample = Sample(validData: bool, maxId: nat)

  function MaxOf(cache: seq<Sample>): (m: nat)
    ensures forall s :: s in cache && s.validData ==> s.maxId <= m
    ensures m == 0 || Sample(true, m) in cache
  {
    if cache == [] then 0
    else
      var last, m := cache[|cache| - 1], MaxOf(cache[..|cache| - 1]);
      assert cache == cache[..|cache| - 1] + [last];
      if last.validData && m < last.maxId then last.maxId else m
  }

  /** One node's reader of the topic, where its own writes come straight back. */
  class MaxIdTopic {
    var cache: seq<Sample>

    constructor ()
      ensures cache == []
    {
      cache := [];
    }

    /** query_maxid: read, and leave the samples. */
    method QueryMaxId() returns (maxId: nat, found: bool)
      ensures maxId == MaxOf(cache) && found == (0 < maxId)
    {
      maxId, found := 0, false;
      for i := 0 to |cache|
        invariant maxId == MaxOf(cache[..i]) && found == (0 < maxId)
      {
        assert cache[..i + 1][..i] == cache[..i];
        if cache[i].validData {
          if cache[i].maxId > maxId {
            maxId := cache[i].maxId;
            found := true;
          }
        }
      }
      assert cache[..|cache|] == cache;
    }

    /** query_maxid_and_replace: take, add one, publish; the write succeeds and loops back. */
    method QueryMaxIdAndReplace() returns (id: nat)
      modifies this
      ensures id == MaxOf(old(cache)) + 1
      ensures cache == [Sample(true, id)]
    {
      var taken := cache;
      cache := [];
      id := 0;
      for i := 0 to |taken|
        invariant id == MaxOf(taken[..i]) && cache == []
      {
        assert taken[..i + 1][..i] == taken[..i];
        if taken[i].validData {
          if taken[i].maxId > id {
            id := taken[i].maxId;
          }
        }
      }
      assert taken[..|taken|] == taken;
      id := id + 1;
      cache := cache + [Sample(true, id)];
    }
  }

  /** On one node, any sequence of allocations and queries under the mutex. */
  method OneNode(calls: seq<bool>) returns (granted: seq<nat>, answers: seq<nat>)
    ensures granted == seq(|granted|, i => i + 1)
    ensures |answers| == |calls|
    ensures forall i :: 0 <= i < |calls| ==> answers[i] == Allocations(calls[..i + 1])
    ensures |granted| == Allocations(calls)
  {
    var topic := new MaxIdTopic();
    granted, answers := [], [];
    for n := 0 to |calls|
      invariant fresh(topic)
      invariant MaxOf(topic.cache) == |granted| == Allocations(calls[..n])
      invariant forall i :: 0 <= i < |granted| ==> granted[i] == i + 1
      invariant |answers| == n
      invariant forall i :: 0 <= i < n ==> answers[i] == Allocations(calls[..i + 1])
    {
      OneMoreCall(calls, n);
      var answer;
      if calls[n] {
        answer := topic.QueryMaxIdAndReplace();
        granted := granted + [answer];
        MaxOfOne(answer);
      } else {
        var found;
        answer, found := topic.QueryMaxId();
      }
      answers := answers + [answer];
    }
    assert calls[..|calls|] == calls;
  }

  lemma OneMoreCall(calls: seq<bool>, n: nat)
    requires n < |calls|
    ensures Allocations(calls[..n + 1]) == Allocations(calls[..n]) + if calls[n] then 1 else 0
  {
    assert calls[..n + 1][..n] == calls[..n];
  }

  lemma MaxOfOne(id: nat)
    ensures MaxOf([Sample(true, id)]) == id
  {
    assert [Sample(true, id)][..0] == [];
  }

  /** How many of the calls allocate. */
  function Allocations(calls: seq<bool>): nat {
    if calls == [] then 0
    else Allocations(calls[..|calls| - 1]) + if calls[|calls| - 1] then 1 else 0
  }

  /* Several nodes, each with its own cache; a write reaches the caches, its own included, in separate steps. */

  datatype Nodes = Nodes(caches: map<nat, seq<Sample>>, written: set<nat>, granted: seq<nat>)

  datatype Step =
    | Allocate(node: nat)
    | Deliver(node: nat, id: nat)

  predicate Enabled(s: Nodes, step: Step) {
    match step
    case Allocate(n) => n in s.caches
    case Deliver(n, id) => n in s.caches && id in s.written
  }

  function NextId(s: Nodes, n: nat): nat
    requires n in s.caches
  {
    MaxOf(s.caches[n]) + 1
  }

  function Next(s: Nodes, step: Step): Nodes
    requires Enabled(s, step)
  {
    match step
    case Allocate(n) =>
      var id := NextId(s, n);
      Nodes(s.caches[n := []], s.written + {id}, s.granted + [id])
    case Deliver(n, id) =>
      s.(caches := s.caches[n := s.caches[n] + [Sample(true, id)]])
  }

  ghost predicate Legal(s: Nodes, steps: seq<Step>)
    decreases |steps|
  {
    steps == [] || (Enabled(s, steps[0]) && Legal(Next(s, steps[0]), steps[1..]))
  }

  ghost function Run(s: Nodes, steps: seq<Step>): Nodes
    requires Legal(s, steps)
    decreases |steps|
  {
    if steps == [] then s else Run(Next(s, steps[0]), steps[1..])
  }

  /** Every allocation happens at a node that holds the id granted last. */
  ghost predicate LastWriteArrived(s: Nodes, steps: seq<Step>)
    requires Legal(s, steps)
    decreases |steps|
  {
    steps == [] ||
    (&& (steps[0].Allocate? && s.granted != [] ==>
           Sample(true, s.granted[|s.granted| - 1]) in s.caches[steps[0].node])
     && LastWriteArrived(Next(s, steps[0]), steps[1..]))
  }

  ghost predicate Distinct(ids: seq<nat>) {
    forall i, j :: 0 <= i < j < |ids| ==> ids[i] != ids[j]
  }

  ghost predicate CountsUp(ids: seq<nat>) {
    forall i :: 0 <= i < |ids| ==> ids[i] == i + 1
  }

  /** Caches hold nothing but ids that were granted. */
  ghost predicate Sound(s: Nodes) {
    && CountsUp(s.granted)
    && (forall id :: id in s.written ==> 0 < id <= |s.granted|)
    && (forall n, x :: n in s.caches && x in s.caches[n] && x.validData ==> x.maxId <= |s.granted|)
  }

  ghost predicate Fresh(s: Nodes) {
    s.written == {} && s.granted == [] && forall n :: n in s.caches ==> s.caches[n] == []
  }

  lemma {:induction false} AllocatedGrows(s: Nodes, steps: seq<Step>)
    requires Legal(s, steps)
    ensures s.granted <= Run(s, steps).granted
    decreases |steps|
  {
    if steps != [] { AllocatedGrows(Next(s, steps[0]), steps[1..]); }
  }

  /** While the allocating node's cache has the last write, ids count up; one allocation without it repeats an id. */
  lemma {:induction false} IdsFrom(s: Nodes, steps: seq<Step>)
    requires Legal(s, steps) && Sound(s)
    ensures if LastWriteArrived(s, steps) then CountsUp(Run(s, steps).granted) else !Distinct(Run(s, steps).granted)
    decreases |steps|
  {
    if steps != [] {
      var s' := Next(s, steps[0]);
      if steps[0].Allocate? {
        var n, k := steps[0].node, |s.granted|;
        if k != 0 && Sample(true, s.granted[k - 1]) !in s.caches[n] {
          var id := NextId(s, n);
          assert id <= k && s'.granted[id - 1] == id && s'.granted[k] == id;
          AllocatedGrows(s', steps[1..]);
          assert Run(s, steps).granted[id - 1] == Run(s, steps).granted[k];
        } else {
          assert NextId(s, n) == k + 1;
          IdsFrom(s', steps[1..]);
        }
      } else {
        IdsFrom(s', steps[1..]);
      }
    }
  }

  /**
   Ids are unique over a whole run, and then count 1, 2, 3, ..., exactly when every allocation after the first
   happens at a node that the previous write has reached.
   */
  lemma UniqueIffLastWriteArrived(s: Nodes, steps: seq<Step>)
    requires Fresh(s) && Legal(s, steps)
    ensures Distinct(Run(s, steps).granted) <==> LastWriteArrived(s, steps)
    ensures LastWriteArrived(s, steps) ==> CountsUp(Run(s, steps).granted)
  {
    IdsFrom(s, steps);
  }

  /** Two nodes that allocate before either write has travelled both get id 1. */
  lemma TwoNodesCanCollide() returns (s: Nodes, steps: seq<Step>)
    ensures Fresh(s) && Legal(s, steps) && Run(s, steps).granted == [1, 1]
  {
    s := Nodes(map[0 := [], 1 := []], {}, []);
    steps := [Allocate(0), Allocate(1)];
    var s1 := Next(s, steps[0]);
    var s2 := Next(s1, steps[1]);
    assert steps[1..] == [Allocate(1)] && steps[1..][1..] == [];
    assert Legal(s2, []) && Legal(s1, [Allocate(1)]);
    assert Run(s1, [Allocate(1)]) == s2;
  }

  /** An allocation takes what is in the cache: until its own write has come back, its node starts over at 1. */
  lemma TakenIsGone(s: Nodes, n: nat)
    requires n in s.caches
    ensures Next(Next(s, Allocate(n)), Allocate(n)).granted == s.granted + [NextId(s, n), 1]
  {}

  /** Where a write has arrived the next id lies beyond it; nobody else notices. */
  lemma DeliveryIsSeen(s: Nodes, n: nat, id: nat)
    requires Enabled(s, Deliver(n, id))
    ensures var s' := Next(s, Deliver(n, id));
            && NextId(s', n) == (if NextId(s, n) <= id then id + 1 else NextId(s, n))
            && s'.granted == s.granted && s'.written == s.written && s'.caches.Keys == s.caches.Keys
            && forall k :: k in s.caches && k != n ==> s'.caches[k] == s.caches[k]
  {
    assert (s.caches[n] + [Sample(true, id)])[..|s.caches[n]|] == s.caches[n];
  }

  /** A write can arrive at every node, its own included, and the next id there lies beyond it. */
  lemma WriteCanArrive(s: Nodes, n: nat, k: nat)
    requires n in s.caches && k in s.caches
    ensures var id, s' := NextId(s, n), Next(s, Allocate(n));
            Enabled(s', Deliver(k, id)) && id < NextId(Next(s', Deliver(k, id)), k)
  {
    DeliveryIsSeen(Next(s, Allocate(n)), k, NextId(s, n));
  }
}
