/**
 The broadcaster: one input fanned out to subscribers over bounded channels. Under the lock an item is offered to
 every subscriber; one whose buffer is full misses it and is evicted by a goroutine that runs some time later.
 */
module Broadcasting {

  const CAPACITY: nat := 100

  /**
   A subscriber's channel. `got` is what the consumer took out; `joined`, `accepted` (the input positions of all items
   ever sent into it) and `missed` (an item found it full) are history.
   */
  datatype Chan<T> = Chan(buf: seq<T>, open: bool, got: seq<T>, joined: nat, accepted: seq<nat>, missed: bool)

  /** `input` is everything streamed so far, `evictions` the eviction goroutines that have not run. */
  datatype State<T> = State(running: bool, subs: set<nat>, chans: map<nat, Chan<T>>, nextSub: nat,
                            input: seq<T>, evictions: set<nat>, panicked: bool)

  datatype Step<T> =
    | Subscribe(connects: bool)
    | Cancel(sub: nat)
    | Evict(sub: nat)
    | Item(item: T)
    | EndOfInput
    | Receive(sub: nat)

  predicate Enabled<T>(s: State<T>, step: Step<T>) {
    match step
    case Subscribe(_) => true
    case Cancel(c) => c in s.chans
    case Evict(c) => c in s.evictions && c in s.chans
    case Item(_) => s.running
    case EndOfInput => s.running
    case Receive(c) => c in s.chans && s.chans[c].buf != []
  }

  /** A send that does not block. */
  function Offer<T>(ch: Chan<T>, item: T, position: nat): Chan<T> {
    if |ch.buf| < CAPACITY then ch.(buf := ch.buf + [item], accepted := ch.accepted + [position])
    else ch.(missed := true)
  }

  /** The item offered to some of the channels, and those among them that have no room for it. */
  function OfferAll<T>(chans: map<nat, Chan<T>>, sinks: set<nat>, item: T, position: nat): map<nat, Chan<T>> {
    map c | c in chans :: if c in sinks then Offer(chans[c], item, position) else chans[c]
  }

  function Full<T>(chans: map<nat, Chan<T>>, sinks: set<nat>): set<nat> {
    set c | c in sinks && c in chans && |chans[c].buf| >= CAPACITY
  }

  function CloseEach<T>(chans: map<nat, Chan<T>>, sinks: set<nat>): map<nat, Chan<T>> {
    map c | c in chans :: if c in sinks then chans[c].(open := false) else chans[c]
  }

  predicate AllOpen<T>(chans: map<nat, Chan<T>>, sinks: set<nat>) {
    forall c :: c in sinks ==> c in chans && chans[c].open
  }

  /** unsub: close and forget, if it is still known; closing twice would panic. */
  function Unsub<T>(s: State<T>, c: nat): State<T>
    requires c in s.chans
  {
    if c in s.subs then
      s.(chans := s.chans[c := s.chans[c].(open := false)], subs := s.subs - {c},
         panicked := s.panicked || !s.chans[c].open)
    else s
  }

  function Next<T>(s: State<T>, step: Step<T>): State<T>
    requires Enabled(s, step)
  {
    match step
    case Subscribe(connects) =>
      if !s.running && !connects then s
      else
        s.(running := true, nextSub := s.nextSub + 1, subs := s.subs + {s.nextSub},
           chans := s.chans[s.nextSub := Chan([], true, [], |s.input|, [], false)])
    case Cancel(c) => Unsub(s, c)
    case Evict(c) => Unsub(s.(evictions := s.evictions - {c}), c)
    case Item(x) =>
      s.(input := s.input + [x],
         chans := OfferAll(s.chans, s.subs, x, |s.input|),
         evictions := s.evictions + Full(s.chans, s.subs),
         panicked := s.panicked || !AllOpen(s.chans, s.subs))
    case EndOfInput =>
      s.(running := false, subs := {},
         chans := CloseEach(s.chans, s.subs),
         panicked := s.panicked || !AllOpen(s.chans, s.subs))
    case Receive(c) =>
      var ch := s.chans[c];
      s.(chans := s.chans[c := ch.(buf := ch.buf[1..], got := ch.got + [ch.buf[0]])])
  }

  const NO_SUBS: set<nat> := {}

  function Init<T>(): State<T> {
    State(false, NO_SUBS, map[], 0, [], {}, false)
  }

  /** Everything that ever went into the channel, in order. */
  function Sent<T>(ch: Chan<T>): seq<T> {
    ch.got + ch.buf
  }

  /** The items sent are an in-order selection of the input since the subscription. */
  ghost predicate Selection<T>(ch: Chan<T>, input: seq<T>) {
    && |ch.accepted| == |Sent(ch)| && ch.joined <= |input|
    && (forall i :: 0 <= i < |ch.accepted| ==>
          ch.joined <= ch.accepted[i] < |input| && input[ch.accepted[i]] == Sent(ch)[i])
    && (forall i, j :: 0 <= i < j < |ch.accepted| ==> ch.accepted[i] < ch.accepted[j])
  }

  /** ... and without holes: the stretch of the input right from the subscription on. */
  ghost predicate Contiguous<T>(ch: Chan<T>) {
    forall i :: 0 <= i < |ch.accepted| ==> ch.accepted[i] == ch.joined + i
  }

  ghost predicate ChanOk<T>(s: State<T>, c: nat)
    requires c in s.chans
  {
    var ch := s.chans[c];
    && |ch.buf| <= CAPACITY
    && Selection(ch, s.input)
    && (ch.open <==> c in s.subs)
    && (ch.missed && ch.open ==> c in s.evictions)
    && (!ch.missed ==> Contiguous(ch))
    && (ch.missed ==> ch.joined + |ch.accepted| < |s.input|)
    && (!ch.missed && ch.open ==> ch.joined + |ch.accepted| == |s.input|)
  }

  ghost predicate Inv<T>(s: State<T>) {
    && !s.panicked
    && s.subs <= s.chans.Keys
    && (s.subs != {} ==> s.running)
    && (forall c :: c in s.chans ==> c < s.nextSub)
    && (forall c :: c in s.chans ==> ChanOk(s, c))
  }

  /** Whatever moves items from buffer to consumer, or closes the channel, keeps what was said about it. */
  lemma ChanKept<T>(s: State<T>, s': State<T>, c: nat)
    requires c in s.chans && c in s'.chans && ChanOk(s, c) && s'.input == s.input
    requires var ch, ch' := s.chans[c], s'.chans[c];
             && Sent(ch') == Sent(ch) && |ch'.buf| <= CAPACITY
             && ch'.joined == ch.joined && ch'.accepted == ch.accepted && ch'.missed == ch.missed
             && (ch'.open <==> c in s'.subs) && (ch'.open ==> ch.open && (ch.missed ==> c in s'.evictions))
    ensures ChanOk(s', c)
  {}

  lemma ItemKeepsChan<T>(s: State<T>, x: T, c: nat)
    requires Inv(s) && s.running && c in s.chans
    ensures ChanOk(Next(s, Item(x)), c)
  {
    assert ChanOk(s, c);
    var s' := Next(s, Item(x));
    var ch, ch' := s.chans[c], s'.chans[c];
    assert s'.input[|s.input|] == x && forall i :: 0 <= i < |s.input| ==> s'.input[i] == s.input[i];
    if c in s.subs && |ch.buf| < CAPACITY {
      assert Sent(ch') == Sent(ch) + [x];
    } else {
      assert Sent(ch') == Sent(ch);
    }
  }

  lemma UnsubKeepsInv<T>(s: State<T>, c: nat)
    requires Inv(s) && c in s.chans
    ensures Inv(Unsub(s, c))
  {
    var s' := Unsub(s, c);
    assert ChanOk(s, c);
    forall d | d in s'.chans ensures ChanOk(s', d) {
      assert ChanOk(s, d);
      assert Sent(s'.chans[d]) == Sent(s.chans[d]);
      ChanKept(s, s', d);
    }
  }

  lemma EvictKeepsInv<T>(s: State<T>, c: nat)
    requires Inv(s) && Enabled(s, Evict(c))
    ensures Inv(Next(s, Evict(c)))
  {
    var s' := Next(s, Evict(c));
    assert ChanOk(s, c);
    forall d | d in s'.chans ensures ChanOk(s', d) {
      assert ChanOk(s, d);
      assert Sent(s'.chans[d]) == Sent(s.chans[d]);
      ChanKept(s, s', d);
    }
  }

  lemma ReceiveKeepsInv<T>(s: State<T>, c: nat)
    requires Inv(s) && Enabled(s, Receive(c))
    ensures Inv(Next(s, Receive(c)))
  {
    var s' := Next(s, Receive(c));
    forall d | d in s'.chans ensures ChanOk(s', d) {
      assert ChanOk(s, d);
      assert Sent(s'.chans[d]) == Sent(s.chans[d]);
      ChanKept(s, s', d);
    }
  }

  lemma SubscribeKeepsInv<T>(s: State<T>, connects: bool)
    requires Inv(s)
    ensures Inv(Next(s, Step<T>.Subscribe(connects)))
  {
    var s' := Next(s, Step<T>.Subscribe(connects));
    forall c | c in s'.chans ensures ChanOk(s', c) { if c in s.chans { assert ChanOk(s, c); } }
  }

  lemma ItemKeepsInv<T>(s: State<T>, x: T)
    requires Inv(s) && s.running
    ensures Inv(Next(s, Item(x)))
  {
    forall c | c in s.chans ensures ChanOk(Next(s, Item(x)), c) { ItemKeepsChan(s, x, c); }
    OpenSubs(s);
  }

  lemma EndKeepsInv<T>(s: State<T>)
    requires Inv(s) && s.running
    ensures Inv(Next(s, Step<T>.EndOfInput))
  {
    var s' := Next(s, Step<T>.EndOfInput);
    forall c | c in s'.chans ensures ChanOk(s', c) {
      assert ChanOk(s, c);
      assert Sent(s'.chans[c]) == Sent(s.chans[c]);
    }
    OpenSubs(s);
  }

  lemma StepKeepsInv<T>(s: State<T>, step: Step<T>)
    requires Inv(s) && Enabled(s, step)
    ensures Inv(Next(s, step))
  {
    match step
    case Cancel(c) => UnsubKeepsInv(s, c);
    case Evict(c) => EvictKeepsInv(s, c);
    case Receive(c) => ReceiveKeepsInv(s, c);
    case Item(x) => ItemKeepsInv(s, x);
    case Subscribe(connects) => SubscribeKeepsInv(s, connects);
    case EndOfInput => EndKeepsInv(s);
  }

  /** All channels but these stay as they are. */
  ghost predicate OthersKept<T>(chans: map<nat, Chan<T>>, chans': map<nat, Chan<T>>, cs: set<nat>) {
    chans'.Keys == chans.Keys + cs && forall c :: c in chans && c !in cs ==> chans'[c] == chans[c]
  }

  /** A new channel, open and empty, and nothing else. */
  lemma SubscribeAdds<T>(s: State<T>)
    requires Inv(s)
    ensures var s' := Next(s, Step<T>.Subscribe(true));
            && s.nextSub !in s.chans && s'.running && s'.subs == s.subs + {s.nextSub}
            && OthersKept(s.chans, s'.chans, {s.nextSub})
            && s'.chans[s.nextSub] == Chan([], true, [], |s.input|, [], false)
  {}

  /** A channel before and after an item: with fewer than 100 items waiting it has one more, otherwise it missed one. */
  ghost predicate Takes<T>(ch: Chan<T>, ch': Chan<T>, item: T, position: nat) {
    if |ch.buf| < 100 then ch' == ch.(buf := ch.buf + [item], accepted := ch.accepted + [position])
    else ch' == ch.(missed := true)
  }

  /** Every subscriber is offered the item, and the eviction of those without room is due. */
  ghost predicate OffersItem<T>(s: State<T>, s': State<T>, item: T) {
    && s'.running == s.running && s'.subs == s.subs && s'.input == s.input + [item]
    && s.subs <= s.chans.Keys == s'.chans.Keys
    && (forall c :: c in s.chans && c in s'.chans ==>
          if c in s.subs then Takes(s.chans[c], s'.chans[c], item, |s.input|) else s'.chans[c] == s.chans[c])
    && forall c :: c in s'.evictions <==>
         c in s.evictions || (c in s.chans && c in s.subs && |s.chans[c].buf| >= 100)
  }

  lemma ItemIsOffered<T>(s: State<T>, item: T)
    requires Inv(s) && s.running
    ensures OffersItem(s, Next(s, Item(item)), item)
  {}

  ghost predicate Legal<T>(s: State<T>, steps: seq<Step<T>>)
    decreases |steps|
  {
    steps == [] || (Enabled(s, steps[0]) && Legal(Next(s, steps[0]), steps[1..]))
  }

  ghost function Run<T>(s: State<T>, steps: seq<Step<T>>): State<T>
    requires Legal(s, steps)
    decreases |steps|
  {
    if steps == [] then s else Run(Next(s, steps[0]), steps[1..])
  }

  lemma {:induction false} RunKeepsInv<T>(s: State<T>, steps: seq<Step<T>>)
    requires Inv(s) && Legal(s, steps)
    ensures Inv(Run(s, steps))
    decreases |steps|
  {
    if steps != [] {
      StepKeepsInv(s, steps[0]);
      RunKeepsInv(Next(s, steps[0]), steps[1..]);
    }
  }

  /**
   In every run no channel is closed twice or sent to after it was closed, the subscribers are the open channels,
   and what went into a channel is an in-order selection of the input since its subscription.
   */
  lemma EveryRunIsSafe<T>(steps: seq<Step<T>>)
    requires Legal(Init<T>(), steps)
    ensures var s := Run(Init<T>(), steps);
            && !s.panicked
            && (forall c :: c in s.chans ==> (s.chans[c].open <==> c in s.subs) && Selection(s.chans[c], s.input))
  {
    RunKeepsInv(Init<T>(), steps);
    var s := Run(Init<T>(), steps);
    forall c | c in s.chans ensures (s.chans[c].open <==> c in s.subs) && Selection(s.chans[c], s.input) {
      assert ChanOk(s, c);
    }
  }

  /* Ends of subscriptions. */

  /** The steps that end the subscription of a channel: its own cancellation or eviction, and the end of the input. */
  predicate Ends<T>(step: Step<T>, c: nat) {
    step == Step<T>.Cancel(c) || step == Step<T>.Evict(c) || step.EndOfInput?
  }

  /** The channel takes nothing more; its consumer may still drain what is in it. */
  ghost predicate ClosedWith<T>(s: State<T>, c: nat, sent: seq<T>, accepted: seq<nat>) {
    c in s.chans && !s.chans[c].open && c !in s.subs && Sent(s.chans[c]) == sent && s.chans[c].accepted == accepted
  }

  lemma StaysClosed<T>(s: State<T>, step: Step<T>, c: nat, sent: seq<T>, accepted: seq<nat>)
    requires Inv(s) && Enabled(s, step) && ClosedWith(s, c, sent, accepted)
    ensures ClosedWith(Next(s, step), c, sent, accepted)
  {
    if step.Receive? && step.sub == c {
      var ch := s.chans[c];
      assert ch.got + [ch.buf[0]] + ch.buf[1..] == ch.got + ch.buf;
    }
  }

  lemma {:induction false} StaysClosedFrom<T>(s: State<T>, steps: seq<Step<T>>, c: nat, sent: seq<T>,
                                              accepted: seq<nat>)
    requires Inv(s) && Legal(s, steps) && ClosedWith(s, c, sent, accepted)
    ensures ClosedWith(Run(s, steps), c, sent, accepted)
    decreases |steps|
  {
    if steps != [] {
      StepKeepsInv(s, steps[0]);
      StaysClosed(s, steps[0], c, sent, accepted);
      StaysClosedFrom(Next(s, steps[0]), steps[1..], c, sent, accepted);
    }
  }

  /**
   Once a subscription has ended its channel is closed, whatever happens afterwards: it is never a subscriber again, and
   nothing is sent into it beyond what it had.
   */
  lemma EndedForGood<T>(before: seq<Step<T>>, step: Step<T>, c: nat, after: seq<Step<T>>)
    requires Legal(Init<T>(), before) && c in Run(Init<T>(), before).chans
    requires Ends(step, c) && Enabled(Run(Init<T>(), before), step)
    requires Legal(Next(Run(Init<T>(), before), step), after)
    ensures var s := Run(Init<T>(), before);
            var s' := Run(Next(s, step), after);
            && c in s'.chans && !s'.chans[c].open && c !in s'.subs
            && Sent(s'.chans[c]) == Sent(s.chans[c]) && s'.chans[c].accepted == s.chans[c].accepted
  {
    RunKeepsInv(Init<T>(), before);
    var s := Run(Init<T>(), before);
    assert ChanOk(s, c);
    StepKeepsInv(s, step);
    StaysClosedFrom(Next(s, step), after, c, Sent(s.chans[c]), s.chans[c].accepted);
  }

  /** An item breaks an unbroken stream exactly when its channel missed one, is not evicted yet, and has room again. */
  lemma HoleIff<T>(s: State<T>, x: T, c: nat)
    requires Inv(s) && s.running && c in s.chans
    requires Contiguous(s.chans[c])
    ensures Contiguous(Next(s, Item(x)).chans[c]) <==>
            !(c in s.subs && s.chans[c].missed && |s.chans[c].buf| < CAPACITY)
  {
    assert ChanOk(s, c);
    var ch, ch' := s.chans[c], Next(s, Item(x)).chans[c];
    if c in s.subs && |ch.buf| < CAPACITY {
      assert ch'.accepted[|ch.accepted|] == |s.input|;
      assert forall i :: 0 <= i < |ch.accepted| ==> ch'.accepted[i] == ch.accepted[i];
    }
  }

  /** Evictions run before the next item is offered. */
  ghost predicate Prompt<T>(s: State<T>, steps: seq<Step<T>>)
    requires Legal(s, steps)
    decreases |steps|
  {
    steps == [] || ((steps[0].Item? ==> s.evictions !! s.subs) && Prompt(Next(s, steps[0]), steps[1..]))
  }

  ghost predicate AllContiguous<T>(s: State<T>) {
    forall c :: c in s.chans ==> Contiguous(s.chans[c])
  }

  lemma PromptStep<T>(s: State<T>, step: Step<T>)
    requires Inv(s) && AllContiguous(s) && Enabled(s, step)
    requires step.Item? ==> s.evictions !! s.subs
    ensures AllContiguous(Next(s, step))
  {
    var s' := Next(s, step);
    forall c | c in s'.chans ensures Contiguous(s'.chans[c]) {
      if c in s.chans {
        assert ChanOk(s, c) && Contiguous(s.chans[c]);
        if step.Item? { HoleIff(s, step.item, c); }
      }
    }
  }

  lemma {:induction false} PromptFrom<T>(s: State<T>, steps: seq<Step<T>>)
    requires Inv(s) && AllContiguous(s) && Legal(s, steps) && Prompt(s, steps)
    ensures AllContiguous(Run(s, steps))
    decreases |steps|
  {
    if steps != [] {
      var s' := Next(s, steps[0]);
      StepKeepsInv(s, steps[0]);
      PromptStep(s, steps[0]);
      PromptFrom(s', steps[1..]);
    }
  }

  /** When evictions run before the next item, every subscriber sees an unbroken stretch from its subscription on. */
  lemma PromptEvictionLeavesNoHoles<T>(steps: seq<Step<T>>)
    requires Legal(Init<T>(), steps) && Prompt(Init<T>(), steps)
    ensures var s := Run(Init<T>(), steps);
            forall c :: c in s.chans ==>
              var ch := s.chans[c];
              && ch.joined + |Sent(ch)| <= |s.input|
              && Sent(ch) == s.input[ch.joined..ch.joined + |Sent(ch)|]
  {
    RunKeepsInv(Init<T>(), steps);
    PromptFrom(Init<T>(), steps);
    var s := Run(Init<T>(), steps);
    forall c | c in s.chans
      ensures s.chans[c].joined + |Sent(s.chans[c])| <= |s.input|
      ensures Sent(s.chans[c]) == s.input[s.chans[c].joined..s.chans[c].joined + |Sent(s.chans[c])|]
    {
      assert ChanOk(s, c) && Contiguous(s.chans[c]);
      var ch := s.chans[c];
      if ch.accepted != [] { assert ch.accepted[|ch.accepted| - 1] < |s.input|; }
    }
  }

  lemma {:induction false} RunExtends<T>(s: State<T>, steps: seq<Step<T>>, step: Step<T>)
    requires Legal(s, steps) && Enabled(Run(s, steps), step)
    ensures Legal(s, steps + [step]) && Run(s, steps + [step]) == Next(Run(s, steps), step)
    decreases |steps|
  {
    if steps == [] {
      assert steps + [step] == [step] && [step][1..] == [];
      assert Legal(Next(s, step), []);
    } else {
      RunExtends(Next(s, steps[0]), steps[1..], step);
      assert (steps + [step])[1..] == steps[1..] + [step];
    }
  }

  /** One subscriber from the start, who has taken nothing of the n items so far. */
  ghost predicate Idle<T>(s: State<T>, n: nat) {
    && s.running && s.subs == {0} && 0 in s.chans && |s.input| == n
    && var ch := s.chans[0];
       && ch.open && ch.joined == 0 && (ch.missed <==> CAPACITY < n)
       && |ch.buf| == |ch.accepted| == (if n < CAPACITY then n else CAPACITY)
       && Contiguous(ch)
  }

  lemma IdleOn<T>(s: State<T>, n: nat, x: T)
    requires Idle(s, n) && n <= CAPACITY
    ensures Idle(Next(s, Item(x)), n + 1)
  {}

  lemma {:induction false} FillUp<T>(x: T, n: nat) returns (steps: seq<Step<T>>)
    requires n <= CAPACITY + 1
    ensures Legal(Init<T>(), steps) && Idle(Run(Init<T>(), steps), n)
  {
    if n == 0 {
      RunExtends(Init<T>(), [], Step.Subscribe(true));
      steps := [] + [Step.Subscribe(true)];
    } else {
      steps := FillUp(x, n - 1);
      IdleOn(Run(Init<T>(), steps), n - 1, x);
      RunExtends(Init<T>(), steps, Item(x));
      steps := steps + [Item(x)];
    }
  }

  /** A subscriber who misses the 101st item, takes one, and is offered the next before the eviction runs. */
  lemma HoleIsReachable<T>(x: T) returns (steps: seq<Step<T>>)
    ensures Legal(Init<T>(), steps) && 0 in Run(Init<T>(), steps).chans && !Contiguous(Run(Init<T>(), steps).chans[0])
  {
    var full := FillUp(x, CAPACITY + 1);
    var s := Run(Init<T>(), full);
    RunExtends(Init<T>(), full, Receive(0));
    var s' := Next(s, Receive(0));
    RunExtends(Init<T>(), full + [Receive(0)], Item(x));
    steps := full + [Receive(0)] + [Item(x)];
    var ch := Next(s', Item(x)).chans[0];
    assert ch.accepted[CAPACITY] == CAPACITY + 1;
  }

  lemma OpenSubs<T>(s: State<T>)
    requires Inv(s)
    ensures AllOpen(s.chans, s.subs)
  {
    forall c | c in s.subs ensures s.chans[c].open { assert ChanOk(s, c); }
  }

  /** Where the loop over the subscribers has come to. */
  ghost predicate OfferedTo<T>(chans: map<nat, Chan<T>>, after: map<nat, Chan<T>>, slow: set<nat>, done: set<nat>,
                               item: T, position: nat)
  {
    && after.Keys == chans.Keys
    && (forall c :: c in chans ==> after[c] == if c in done then Offer(chans[c], item, position) else chans[c])
    && (forall c :: c in slow <==> c in done && c in chans && |chans[c].buf| >= CAPACITY)
  }

  lemma OfferedOneMore<T>(chans: map<nat, Chan<T>>, after: map<nat, Chan<T>>, slow: set<nat>, done: set<nat>, c: nat,
                          item: T, position: nat)
    requires OfferedTo(chans, after, slow, done, item, position) && c in chans && c !in done
    ensures c in after && after[c] == chans[c]
    ensures OfferedTo(chans, after[c := Offer(chans[c], item, position)],
                      if |chans[c].buf| >= CAPACITY then slow + {c} else slow, done + {c}, item, position)
  {}

  lemma OfferedToAll<T>(chans: map<nat, Chan<T>>, after: map<nat, Chan<T>>, slow: set<nat>, sinks: set<nat>, item: T,
                        position: nat)
    requires OfferedTo(chans, after, slow, sinks, item, position)
    ensures after == OfferAll(chans, sinks, item, position) && slow == Full(chans, sinks)
  {}

  ghost predicate ClosedOf<T>(chans: map<nat, Chan<T>>, after: map<nat, Chan<T>>, done: set<nat>) {
    && after.Keys == chans.Keys
    && forall c :: c in chans ==> after[c] == if c in done then chans[c].(open := false) else chans[c]
  }

  lemma ClosedOneMore<T>(chans: map<nat, Chan<T>>, after: map<nat, Chan<T>>, done: set<nat>, c: nat)
    requires ClosedOf(chans, after, done) && c in chans && c !in done
    ensures c in after && after[c] == chans[c]
    ensures ClosedOf(chans, after[c := chans[c].(open := false)], done + {c})
  {}

  lemma OneFewer(all: set<nat>, todo: set<nat>, c: nat)
    requires c in todo && todo <= all
    ensures all - (todo - {c}) == all - todo + {c} && c !in all - todo && |todo - {c}| < |todo|
  {}

  lemma ClosedAll<T>(chans: map<nat, Chan<T>>, after: map<nat, Chan<T>>, sinks: set<nat>)
    requires ClosedOf(chans, after, sinks)
    ensures after == CloseEach(chans, sinks)
  {}

  /** Closing a channel that is closed would panic. */
  method Close<T>(ch: Chan<T>) returns (closed: Chan<T>)
    requires ch.open
    ensures closed == ch.(open := false)
  {
    closed := ch.(open := false);
  }

  /** A send that does not block: false when the buffer is full. Sending on a closed channel would panic. */
  method TrySend<T>(ch: Chan<T>, item: T, position: nat) returns (after: Chan<T>, ok: bool)
    requires ch.open
    ensures ok <==> |ch.buf| < CAPACITY
    ensures after == Offer(ch, item, position)
  {
    ok := |ch.buf| < CAPACITY;
    if ok {
      after := ch.(buf := ch.buf + [item], accepted := ch.accepted + [position]);
    } else {
      after := ch.(missed := true);
    }
  }

  /** The inner loop of stream, in whatever order the map yields the subscribers. */
  method OfferToAll<T>(chans: map<nat, Chan<T>>, sinks: set<nat>, item: T, position: nat)
    returns (after: map<nat, Chan<T>>, slow: set<nat>)
    requires AllOpen(chans, sinks)
    ensures after == OfferAll(chans, sinks, item, position)
    ensures slow == Full(chans, sinks)
  {
    var todo := sinks;
    after, slow := chans, {};
    while todo != {}
      invariant todo <= sinks && OfferedTo(chans, after, slow, sinks - todo, item, position)
      decreases |todo|
    {
      var sub :| sub in todo;
      OneFewer(sinks, todo, sub);
      OfferedOneMore(chans, after, slow, sinks - todo, sub, item, position);
      var ch, ok := TrySend(after[sub], item, position);
      after := after[sub := ch];
      if !ok {
        slow := slow + {sub};
      }
      todo := todo - {sub};
    }
    OfferedToAll(chans, after, slow, sinks, item, position);
  }

  method CloseAll<T>(chans: map<nat, Chan<T>>, sinks: set<nat>) returns (after: map<nat, Chan<T>>)
    requires AllOpen(chans, sinks)
    ensures after == CloseEach(chans, sinks)
  {
    var todo := sinks;
    after := chans;
    while todo != {}
      invariant todo <= sinks && ClosedOf(chans, after, sinks - todo)
      decreases |todo|
    {
      var sub :| sub in todo;
      OneFewer(sinks, todo, sub);
      ClosedOneMore(chans, after, sinks - todo, sub);
      var ch := Close(after[sub]);
      after := after[sub := ch];
      todo := todo - {sub};
    }
    ClosedAll(chans, after, sinks);
  }

  /** The object itself, its fields changed under the lock. */
  class Broadcaster<T> {
    var running: bool
    var subs: set<nat>
    var chans: map<nat, Chan<T>>
    var nextSub: nat
    var evictions: set<nat>
    var input: seq<T>

    ghost function View(): State<T>
      reads this
    {
      State(running, subs, chans, nextSub, input, evictions, false)
    }

    ghost predicate Valid()
      reads this
    {
      Inv(View())
    }

    constructor ()
      ensures Valid() && View() == Init<T>()
    {
      running, subs, chans, nextSub, evictions, input := false, NO_SUBS, map[], 0, {}, [];
    }

    method Subscribe(connects: bool) returns (sub: nat, ok: bool)
      requires Valid()
      modifies this
      ensures Valid() && View() == Next(old(View()), Step.Subscribe(connects))
      ensures ok <==> old(running) || connects
      ensures !ok ==> View() == old(View())
      ensures ok ==>
                && running && subs == old(subs) + {sub} && sub !in old(chans)
                && OthersKept(old(chans), chans, {sub})
                && chans[sub] == Chan([], true, [], |input|, [], false)
                && input == old(input) && evictions == old(evictions)
    {
      ghost var s := View();
      SubscribeKeepsInv(s, connects);
      SubscribeAdds(s);
      if !running {
        if !connects {
          return 0, false;
        }
        running := true;
      }
      sub, ok := nextSub, true;
      chans := chans[sub := Chan([], true, [], |input|, [], false)];
      subs := subs + {sub};
      nextSub := nextSub + 1;
      assert View() == Next(s, Step.Subscribe(connects));
    }

    /** The body of unsub, under the lock; run when the context ends, by an eviction, or at the end of the input. */
    method Unsub(sub: nat)
      requires Valid() && sub in chans
      modifies this
      ensures Valid() && View() == Next(old(View()), Step.Cancel(sub))
      ensures subs == old(subs) - {sub}
      ensures OthersKept(old(chans), chans, {sub}) && chans[sub] == old(chans)[sub].(open := false)
      ensures running == old(running) && input == old(input) && evictions == old(evictions)
    {
      UnsubKeepsInv(View(), sub);
      assert ChanOk(View(), sub);
      if sub in subs {
        var closed := Close(chans[sub]);
        chans := chans[sub := closed];
        subs := subs - {sub};
      }
    }

    method Evict(sub: nat)
      requires Valid() && sub in evictions && sub in chans
      modifies this
      ensures Valid() && View() == Next(old(View()), Step.Evict(sub))
      ensures subs == old(subs) - {sub} && evictions == old(evictions) - {sub}
      ensures OthersKept(old(chans), chans, {sub}) && chans[sub] == old(chans)[sub].(open := false)
      ensures running == old(running) && input == old(input)
    {
      EvictKeepsInv(View(), sub);
      assert ChanOk(View(), sub);
      evictions := evictions - {sub};
      if sub in subs {
        var closed := Close(chans[sub]);
        chans := chans[sub := closed];
        subs := subs - {sub};
      }
    }

    /** One item of the input: offered to every subscriber. */
    method StreamItem(item: T)
      requires Valid() && running
      modifies this
      ensures Valid() && View() == Next(old(View()), Step.Item(item))
      ensures OffersItem(old(View()), View(), item)
    {
      ghost var s := View();
      OpenSubs(s);
      var slow;
      chans, slow := OfferToAll(chans, subs, item, |input|);
      // each slow consumer gets a goroutine that will unsubscribe it
      evictions := evictions + slow;
      input := input + [item];
      ItemKeepsInv(s, item);
      ItemIsOffered(s, item);
    }

    /** The input has been closed: close every subscriber and stop. */
    method StreamEnd()
      requires Valid() && running
      modifies this
      ensures Valid() && View() == Next(old(View()), Step<T>.EndOfInput)
      ensures !running && subs == {} && input == old(input) && evictions == old(evictions)
      ensures OthersKept(old(chans), chans, old(subs))
      ensures forall c :: c in old(subs) ==> chans[c] == old(chans)[c].(open := false)
    {
      ghost var s := View();
      OpenSubs(s);
      chans := CloseAll(chans, subs);
      subs := {};
      running := false;
      EndKeepsInv(s);
    }
  }
}
