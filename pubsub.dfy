/**
 * The routing snapshot and the hub that relays it from the publisher to
 * one subscriber. The relay reads snapshots from its input and offers each
 * one to an output channel; when the output buffer is full it takes the
 * oldest value out to make room, so the publisher never waits and the
 * subscriber sees the newest values. When the input ends, the output is
 * closed. Channel blocking is replaced by explicit outcomes.
 */
module PubSub {
  import opened Wrappers

  /** All that is needed to route requests for one host and path to a backend. */
  datatype Service = Service(
    host: string,
    port: int,
    path: string,
    endpoints: seq<string>,
    clusterDNSName: string,
    crt: string,
    key: string)

  /** Every service known, and the services of the object that changed (empty on delete). */
  datatype Snapshot = Snapshot(services: seq<Service>, delta: seq<Service>)

  /* ---------------- one offer ---------------- */

  /**
   * What offering a value to an output channel does: it is buffered,
   * possibly after the oldest buffered value is dropped; it is handed
   * straight to a waiting subscriber (only possible without a buffer); or
   * the relay blocks for good, waiting to take a value from a channel that
   * nobody else writes to.
   */
  datatype OfferResult<T> = Sent(buffer: seq<T>, dropped: Option<T>) | HandedOver | Blocked

  /**
   * The select of PubSub.Run on an output channel of capacity `cap` holding
   * `buffer`: send if there is room, otherwise take one value out and send.
   */
  function Offer<T>(buffer: seq<T>, cap: nat, v: T, subscriberWaiting: bool): (r: OfferResult<T>)
    requires |buffer| <= cap
    ensures cap >= 1 ==> r.Sent? && 1 <= |r.buffer| <= cap && r.buffer[|r.buffer| - 1] == v
    ensures r.Sent? ==> (r.dropped.None? <==> |buffer| < cap)
    ensures r.Sent? && r.dropped.None? ==> r.buffer == buffer + [v]
    ensures r.Sent? && r.dropped.Some? ==> [r.dropped.value] + r.buffer == buffer + [v]
    ensures cap == 0 ==> (r.HandedOver? <==> subscriberWaiting) && (r.Blocked? <==> !subscriberWaiting)
  {
    if |buffer| < cap then Sent(buffer + [v], None)
    else if cap == 0 then (if subscriberWaiting then HandedOver else Blocked)
    else Sent(buffer[1..] + [v], Some(buffer[0]))
  }

  /** The newest `cap` values of s. */
  function Newest<T>(s: seq<T>, cap: nat): (r: seq<T>)
    ensures |r| <= cap && |r| <= |s|
    ensures |r| == if |s| <= cap then |s| else cap
    ensures r == s[|s| - |r|..]
  {
    if |s| <= cap then s else s[|s| - cap..]
  }

  /** A buffered offer keeps exactly the newest `cap` values. */
  lemma OfferKeepsNewest<T>(buffer: seq<T>, prefix: seq<T>, cap: nat, v: T)
    requires cap >= 1 && buffer == Newest(prefix, cap)
    ensures Offer(buffer, cap, v, false).buffer == Newest(prefix + [v], cap)
  {
    var s := prefix + [v];
    if |prefix| > cap {
      assert prefix[|prefix| - cap..][1..] + [v] == s[|s| - cap..];
    } else if |prefix| == cap {
      assert prefix[1..] + [v] == s[|s| - cap..];
    }
  }

  /* ---------------- the relay as an object ---------------- */

  /** What a subscriber's receive on the output channel yields. */
  datatype Received<T> = Value(v: T) | EndOfStream | WouldBlock

  /**
   * The hub's output side with a buffer of `capacity` snapshots (the ring
   * the PubSub doc comment describes).
   */
  class PubSubHub {
    const capacity: nat
    var buffer: seq<Snapshot>
    var closed: bool

    predicate Valid()
      reads this
    {
      capacity >= 1 && |buffer| <= capacity
    }

    constructor (capacity: nat)
      requires capacity >= 1
      ensures Valid() && this.capacity == capacity && buffer == [] && !closed
    {
      this.capacity := capacity;
      buffer := [];
      closed := false;
    }

    /** One turn of the relay loop. */
    method Relay(v: Snapshot)
      requires Valid() && !closed
      modifies this
      ensures Valid() && !closed
      ensures buffer == Offer(old(buffer), capacity, v, false).buffer
    {
      if |buffer| < capacity {
        buffer := buffer + [v];
      } else {
        buffer := buffer[1..];
        buffer := buffer + [v];
      }
    }

    /**
     * PubSub.Run with no receive in between: every input value is
     * relayed, then the output is closed. What is left is the newest
     * `capacity` of the values.
     */
    method Run(input: seq<Snapshot>)
      requires Valid() && !closed
      modifies this
      ensures Valid() && closed
      ensures buffer == Newest(old(buffer) + input, capacity)
    {
      ghost var start := buffer;
      assert Newest(start + input[..0], capacity) == start by {
        assert start + input[..0] == start;
      }
      var i := 0;
      while i < |input|
        invariant Valid() && !closed && i <= |input|
        invariant buffer == Newest(start + input[..i], capacity)
      {
        OfferKeepsNewest(buffer, start + input[..i], capacity, input[i]);
        assert start + input[..i + 1] == start + input[..i] + [input[i]];
        Relay(input[i]);
        i := i + 1;
      }
      assert input[..i] == input;
      closed := true;
    }

    /** The subscriber's receive: the oldest buffered value, end of stream once closed and empty. */
    method Receive() returns (r: Received<Snapshot>)
      requires Valid()
      modifies this
      ensures Valid() && closed == old(closed)
      ensures old(buffer) != [] ==> r == Value(old(buffer)[0]) && buffer == old(buffer)[1..]
      ensures old(buffer) == [] ==> buffer == [] && (r == EndOfStream <==> closed) && (r == WouldBlock <==> !closed)
    {
      if buffer != [] {
        r := Value(buffer[0]);
        buffer := buffer[1..];
      } else if closed {
        r := EndOfStream;
      } else {
        r := WouldBlock;
      }
    }
  }

  /* ---------------- the relay over an interleaving ---------------- */

  /** What happens next: the publisher sends, the subscriber receives, or the input ends. */
  datatype Event<T> = Publish(v: T) | Receive | EndInput

  datatype RelayState<T> = RelayState(buffer: seq<T>, closed: bool, published: seq<T>, received: seq<T>)

  /** The effect of one event on a relay with a buffer of `cap` >= 1. */
  function Step<T>(st: RelayState<T>, cap: nat, e: Event<T>): (r: RelayState<T>)
    requires cap >= 1 && |st.buffer| <= cap
    ensures |r.buffer| <= cap
  {
    match e
    case Publish(v) =>
      if st.closed then st
      else RelayState(Offer(st.buffer, cap, v, false).buffer, false, st.published + [v], st.received)
    case Receive =>
      if st.buffer == [] then st
      else RelayState(st.buffer[1..], st.closed, st.published, st.received + [st.buffer[0]])
    case EndInput => st.(closed := true)
  }

  function Replay<T>(cap: nat, events: seq<Event<T>>): (r: RelayState<T>)
    requires cap >= 1
    ensures |r.buffer| <= cap
  {
    if events == [] then RelayState([], false, [], [])
    else Step(Replay(cap, events[..|events| - 1]), cap, events[|events| - 1])
  }

  /** idx picks, in increasing positions of b, the elements of a. */
  ghost predicate Witness<T>(a: seq<T>, b: seq<T>, idx: seq<nat>) {
    && |idx| == |a|
    && (forall k :: 0 <= k < |idx| ==> idx[k] < |b| && b[idx[k]] == a[k])
    && (forall k, l :: 0 <= k < l < |idx| ==> idx[k] < idx[l])
  }

  lemma WitnessAppend<T>(a: seq<T>, b: seq<T>, idx: seq<nat>, v: T)
    requires Witness(a, b, idx)
    ensures Witness(a + [v], b + [v], idx + [|b|])
  {
  }

  lemma WitnessDrop<T>(a: seq<T>, b: seq<T>, idx: seq<nat>, n: nat)
    requires Witness(a, b, idx) && n < |a|
    ensures Witness(a[..n] + a[n + 1..], b, idx[..n] + idx[n + 1..])
  {
    var a', idx' := a[..n] + a[n + 1..], idx[..n] + idx[n + 1..];
    forall k | 0 <= k < |idx'|
      ensures idx'[k] < |b| && b[idx'[k]] == a'[k]
    {
      var k' := if k < n then k else k + 1;
      assert idx'[k] == idx[k'] && a'[k] == a[k'];
    }
    forall k, l | 0 <= k < l < |idx'|
      ensures idx'[k] < idx'[l]
    {
      var k' := if k < n then k else k + 1;
      var l' := if l < n then l else l + 1;
      assert idx'[k] == idx[k'] && idx'[l] == idx[l'];
    }
  }

  /** One event keeps "received, then buffered" a subsequence of what was published. */
  lemma WitnessStep<T>(prev: RelayState<T>, cap: nat, e: Event<T>, pidx: seq<nat>) returns (idx: seq<nat>)
    requires cap >= 1 && |prev.buffer| <= cap
    requires Witness(prev.received + prev.buffer, prev.published, pidx)
    ensures var st := Step(prev, cap, e); Witness(st.received + st.buffer, st.published, idx)
  {
    var st := Step(prev, cap, e);
    var seen := prev.received + prev.buffer;
    idx := pidx;
    if e.Publish? && !prev.closed {
      if |prev.buffer| < cap {
        WitnessAppend(seen, prev.published, pidx, e.v);
        idx := pidx + [|prev.published|];
        assert st.received + st.buffer == seen + [e.v];
      } else {
        var n := |prev.received|;
        WitnessDrop(seen, prev.published, pidx, n);
        WitnessAppend(seen[..n] + seen[n + 1..], prev.published, pidx[..n] + pidx[n + 1..], e.v);
        idx := pidx[..n] + pidx[n + 1..] + [|prev.published|];
        assert st.received + st.buffer == seen[..n] + seen[n + 1..] + [e.v];
      }
    } else if e.Receive? && prev.buffer != [] {
      assert st.received + st.buffer == seen;
    }
  }

  /** What was received followed by what is buffered is a subsequence of what was published. */
  lemma {:induction false} ReplayWitness<T>(cap: nat, events: seq<Event<T>>) returns (idx: seq<nat>)
    requires cap >= 1
    ensures var st := Replay(cap, events); Witness(st.received + st.buffer, st.published, idx)
    decreases |events|
  {
    if events == [] {
      idx := [];
    } else {
      var prev := Replay(cap, events[..|events| - 1]);
      var pidx := ReplayWitness(cap, events[..|events| - 1]);
      idx := WitnessStep(prev, cap, events[|events| - 1], pidx);
    }
  }

  /** Values the subscriber receives are published values, in publication order. */
  lemma ReceivedInOrder<T>(cap: nat, events: seq<Event<T>>)
    requires cap >= 1
    ensures var st := Replay(cap, events); exists idx :: Witness(st.received, st.published, idx)
  {
    var st := Replay(cap, events);
    var idx := ReplayWitness(cap, events);
    var prefix := idx[..|st.received|];
    assert forall k :: 0 <= k < |st.received| ==> (st.received + st.buffer)[k] == st.received[k];
    assert Witness(st.received, st.published, prefix);
  }

  lemma ReplaySnoc<T>(cap: nat, events: seq<Event<T>>, e: Event<T>)
    requires cap >= 1
    ensures Replay(cap, events + [e]) == Step(Replay(cap, events), cap, e)
  {
    assert (events + [e])[..|events|] == events;
  }

  /** With room for one value, three publications in a row leave only the last to receive, and nothing after it. */
  lemma LatestWins<T>(v1: T, v2: T, v3: T)
    ensures Replay(1, [Publish(v1), Publish(v2), Publish(v3), Receive]).received == [v3]
    ensures Replay(1, [Publish(v1), Publish(v2), Publish(v3), Receive]).buffer == []
  {
    ReplaySnoc(1, [], Publish(v1));
    assert [] + [Publish(v1)] == [Publish(v1)];
    ReplaySnoc(1, [Publish(v1)], Publish(v2));
    assert [Publish(v1)] + [Publish(v2)] == [Publish(v1), Publish(v2)];
    ReplaySnoc(1, [Publish(v1), Publish(v2)], Publish(v3));
    assert [Publish(v1), Publish(v2)] + [Publish(v3)] == [Publish(v1), Publish(v2), Publish(v3)];
    ReplaySnoc(1, [Publish(v1), Publish(v2), Publish(v3)], Receive);
    assert [Publish(v1), Publish(v2), Publish(v3)] + [Receive]
        == [Publish(v1), Publish(v2), Publish(v3), Receive];
  }

  /** With room for one value, a value received before the next publication is not lost. */
  lemma ReceiveBetweenKeepsBoth<T>(v1: T, v2: T)
    ensures Replay(1, [Publish(v1), Receive, Publish(v2), Receive]).received == [v1, v2]
  {
    ReplaySnoc(1, [], Publish(v1));
    assert [] + [Publish(v1)] == [Publish(v1)];
    ReplaySnoc(1, [Publish(v1)], Receive);
    assert [Publish(v1)] + [Receive] == [Publish(v1), Receive];
    ReplaySnoc(1, [Publish(v1), Receive], Publish(v2));
    assert [Publish(v1), Receive] + [Publish(v2)] == [Publish(v1), Receive, Publish(v2)];
    ReplaySnoc(1, [Publish(v1), Receive, Publish(v2)], Receive);
    assert [Publish(v1), Receive, Publish(v2)] + [Receive]
        == [Publish(v1), Receive, Publish(v2), Receive];
  }

  /** A run of n receives. */
  function Receives<T>(n: nat): (es: seq<Event<T>>)
    ensures |es| == n && forall k :: 0 <= k < n ==> es[k] == Receive
  {
    if n == 0 then [] else Receives<T>(n - 1) + [Receive]
  }

  /**
   * After the input has ended, the subscriber still receives every value
   * that was buffered, in order, and the buffer is then empty and closed:
   * the next receive is the end of the stream.
   */
  lemma DrainAfterClose<T>(cap: nat, events: seq<Event<T>>, n: nat)
    requires cap >= 1
    requires var st := Replay(cap, events); st.closed && n <= |st.buffer|
    ensures var st := Replay(cap, events);
      var after := Replay(cap, events + Receives(n));
      after.received == st.received + st.buffer[..n] && after.buffer == st.buffer[n..] && after.closed
  {
    ReplayReceives(cap, events, n);
    ReceivedInTurn(Replay(cap, events), cap, n);
  }

  /** n receives applied to a relay state. */
  function ReceiveN<T>(st: RelayState<T>, cap: nat, n: nat): (r: RelayState<T>)
    requires cap >= 1 && |st.buffer| <= cap
    ensures |r.buffer| <= cap
  {
    if n == 0 then st else Step(ReceiveN(st, cap, n - 1), cap, Receive)
  }

  lemma {:induction false} ReplayReceives<T>(cap: nat, events: seq<Event<T>>, n: nat)
    requires cap >= 1
    ensures Replay(cap, events + Receives(n)) == ReceiveN(Replay(cap, events), cap, n)
  {
    if n > 0 {
      ReplayReceives(cap, events, n - 1);
      var front := events + Receives(n - 1);
      assert events + Receives(n) == front + [Receive];
      ReplaySnoc(cap, front, Receive);
    } else {
      assert events + Receives(0) == events;
    }
  }

  /** Each receive takes the oldest buffered value; nothing else changes. */
  lemma {:induction false} ReceivedInTurn<T>(st: RelayState<T>, cap: nat, n: nat)
    requires cap >= 1 && |st.buffer| <= cap && n <= |st.buffer|
    ensures var after := ReceiveN(st, cap, n);
      && after.received == st.received + st.buffer[..n]
      && after.buffer == st.buffer[n..]
      && after.closed == st.closed
  {
    if n > 0 {
      ReceivedInTurn(st, cap, n - 1);
      assert st.buffer[..n - 1] + [st.buffer[n - 1]] == st.buffer[..n];
      assert st.buffer[n - 1..][1..] == st.buffer[n..];
    }
  }

  /**
   * The relay as StartHub builds it: an output channel without a buffer.
   * A value published while the subscriber is busy leaves the relay
   * waiting to take a value out of a channel nobody else sends on, so
   * neither this value nor any later one reaches the subscriber.
   */
  lemma UnbufferedHubBlocks<T>(v: T)
    ensures Offer([], 0, v, false) == Blocked
  {
  }

  /**
   * With a buffer of one or more, an offer taken as one step (no receive
   * between the select and the drain) never blocks, whether or not the
   * subscriber is waiting.
   */
  lemma BufferedHubNeverBlocks<T>(buffer: seq<T>, cap: nat, v: T, subscriberWaiting: bool)
    requires 1 <= cap && |buffer| <= cap
    ensures Offer(buffer, cap, v, subscriberWaiting).Sent?
  {
  }

  /* ---------------- the select and the drain as two steps ---------------- */

  /** The drain of Run's default branch: a receive, which waits (None) while the channel is empty. */
  function DrainAsWritten<T>(buffer: seq<T>): (r: Option<seq<T>>)
    ensures r.None? <==> buffer == []
    ensures r.Some? ==> [buffer[0]] + r.value == buffer
  {
    if buffer == [] then None else Some(buffer[1..])
  }

  /** A drain that does not wait: take the oldest value if there is one. */
  function DrainNonBlocking<T>(buffer: seq<T>): (r: seq<T>)
    ensures buffer == [] ==> r == []
    ensures buffer != [] ==> [buffer[0]] + r == buffer
  {
    if buffer == [] then [] else buffer[1..]
  }

  /**
   * The select finds the buffer full; the subscriber then receives
   * `taken` values before the drain runs. The drain as written waits for
   * good exactly when the subscriber emptied the buffer, since only the
   * relay sends on the channel.
   */
  lemma SelectDrainRace<T>(buffer: seq<T>, cap: nat, taken: nat)
    requires 1 <= cap && |buffer| == cap && taken <= cap
    ensures DrainAsWritten(buffer[taken..]).None? <==> taken == cap
  {
  }

  /**
   * With a drain that does not wait, the send after it always finds room,
   * however many values the subscriber took in between; the new value is
   * last and only values the subscriber has not taken stay before it.
   */
  lemma NonBlockingDrainSends<T>(buffer: seq<T>, cap: nat, taken: nat, v: T)
    requires 1 <= cap && |buffer| == cap && taken <= cap
    ensures var rest := DrainNonBlocking(buffer[taken..]);
      && |rest| < cap
      && Offer(rest, cap, v, false) == Sent(rest + [v], None)
      && (taken < cap ==> rest + [v] == buffer[taken + 1..] + [v])
  {
  }
}
