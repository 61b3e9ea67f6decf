/**
 * The contract of the Kubernetes work queue the Ingress watcher uses
 * (k8s.io/kubernetes/pkg/util/workqueue, which is not part of this
 * model): a FIFO of keys that coalesces repeated additions. A key is
 * "dirty" from the moment it is added until a worker takes it, and
 * "processing" from then until the worker reports it done; a key added
 * while it is processing is held back and queued again only by Done.
 * These rules are stated here as a model of that library, not derived
 * from its code.
 */
module WorkQueue {
  import opened Wrappers

  /** The queue's three pieces of state. */
  datatype QueueState = QueueState(queue: seq<string>, dirty: set<string>, processing: set<string>)

  predicate Distinct(s: seq<string>) {
    forall i, j :: 0 <= i < j < |s| ==> s[i] != s[j]
  }

  /** Queued keys are exactly the dirty keys nobody is processing, each once. */
  predicate Consistent(st: QueueState) {
    && Distinct(st.queue)
    && (forall k :: k in st.queue ==> k in st.dirty && k !in st.processing)
    && (forall k :: k in st.dirty && k !in st.processing ==> k in st.queue)
  }

  const Empty := QueueState([], {}, {})

  /** Add: ignored for a dirty key; otherwise marks it dirty and queues it unless it is processing. */
  function Added(st: QueueState, k: string): QueueState {
    if k in st.dirty then st
    else if k in st.processing then st.(dirty := st.dirty + {k})
    else st.(queue := st.queue + [k], dirty := st.dirty + {k})
  }

  /** Get: the first queued key moves to processing and stops being dirty; None means Get would wait. */
  function Taken(st: QueueState): (Option<string>, QueueState) {
    if st.queue == [] then (None, st)
    else (Some(st.queue[0]), QueueState(st.queue[1..], st.dirty - {st.queue[0]}, st.processing + {st.queue[0]}))
  }

  /** Done: the key stops processing, and is queued again when it was added meanwhile. */
  function Finished(st: QueueState, k: string): QueueState {
    var st' := st.(processing := st.processing - {k});
    if k in st.dirty then st'.(queue := st.queue + [k]) else st'
  }

  /**
   * Add keeps the queue valid; afterwards the key is dirty, and it is
   * queued exactly when it is not processing. Nothing else is queued.
   */
  lemma AddedSpec(st: QueueState, k: string)
    requires Consistent(st)
    ensures var st' := Added(st, k);
      && Consistent(st')
      && k in st'.dirty
      && (k in st'.queue <==> k !in st.processing)
      && st'.processing == st.processing
      && (forall x :: x != k ==> (x in st'.queue <==> x in st.queue))
  {
  }

  /** Adding a key twice is the same as adding it once. */
  lemma AddedIdempotent(st: QueueState, k: string)
    ensures Added(Added(st, k), k) == Added(st, k)
  {
  }

  /**
   * Get hands out the oldest queued key, which is then processing and no
   * longer queued or dirty; the rest of the queue keeps its order.
   */
  lemma TakenSpec(st: QueueState)
    requires Consistent(st)
    ensures var (k, st') := Taken(st);
      && Consistent(st')
      && (k.None? <==> st.queue == [])
      && (k.Some? ==> k.value == st.queue[0] && st'.queue == st.queue[1..]
                      && k.value in st'.processing && k.value !in st'.dirty && k.value !in st'.queue)
  {
    if st.queue != [] {
      var k := st.queue[0];
      var (_, st') := Taken(st);
      forall x
        ensures x in st'.queue <==> x in st'.dirty && x !in st'.processing
      {
        if x in st'.queue {
          var i :| 0 <= i < |st'.queue| && st'.queue[i] == x;
          assert st.queue[i + 1] == x;
        }
        if x in st.queue && x != k {
          var i :| 0 <= i < |st.queue| && st.queue[i] == x;
          assert st'.queue[i - 1] == x;
        }
      }
    }
  }

  /**
   * Done on a processing key keeps the queue valid: the key is no longer
   * processing, and it is queued again exactly when it was added while it
   * was processing.
   */
  lemma FinishedSpec(st: QueueState, k: string)
    requires Consistent(st) && k in st.processing
    ensures var st' := Finished(st, k);
      && Consistent(st')
      && k !in st'.processing
      && (k in st'.queue <==> k in st.dirty)
      && (forall x :: x != k ==> (x in st'.queue <==> x in st.queue))
  {
  }

  /** The queue object; its methods change it as the functions above say. */
  class Queue {
    var queue: seq<string>
    var dirty: set<string>
    var processing: set<string>

    function State(): QueueState
      reads this
    {
      QueueState(queue, dirty, processing)
    }

    predicate Valid()
      reads this
    {
      Consistent(State())
    }

    constructor ()
      ensures State() == Empty && Valid()
    {
      queue, dirty, processing := [], {}, {};
    }

    method Add(k: string)
      requires Valid()
      modifies this
      ensures State() == Added(old(State()), k) && Valid()
    {
      AddedSpec(State(), k);
      if k in dirty {
        return;
      }
      dirty := dirty + {k};
      if k in processing {
        return;
      }
      queue := queue + [k];
    }

    /** Get, with None in place of waiting for an empty queue. */
    method Get() returns (k: Option<string>)
      requires Valid()
      modifies this
      ensures (k, State()) == Taken(old(State())) && Valid()
    {
      TakenSpec(State());
      if queue == [] {
        return None;
      }
      k := Some(queue[0]);
      queue := queue[1..];
      processing := processing + {k.value};
      dirty := dirty - {k.value};
    }

    /** Done, for a key a worker took with Get. */
    method Done(k: string)
      requires Valid() && k in processing
      modifies this
      ensures State() == Finished(old(State()), k) && Valid()
    {
      FinishedSpec(State(), k);
      processing := processing - {k};
      if k in dirty {
        queue := queue + [k];
      }
    }
  }
}
