/** The shared queues of precomputed values: src/electionguard/precompute_buffers.cpp. */
module PrecomputeBuffers {
  import opened ModGroup
  import opened ElementQ
  import opened Precomputed

  const DEFAULT_PRECOMPUTE_SIZE := 5000

  /** Two extra triples are generated on every third iteration of a populate call. */
  function TriplesAfter(iterations: nat): nat {
    2 * ((iterations + 2) / 3)
  }

  lemma TriplesStep(n: nat)
    ensures TriplesAfter(n + 1) == TriplesAfter(n) + if n % 3 == 0 then 2 else 0
    ensures TriplesAfter(0) == 0
  {
  }

  /** What one locked iteration of populate generates. */
  datatype Batch = Batch(bundle: TwoTriplesAndAQuadruple, extra: seq<Triple>)

  ghost predicate GeneratedFor(grp: Group, k: nat, iteration: nat, batch: Batch)
    requires 1 < grp.p
  {
    && BundleFor(grp, k, batch.bundle)
    && |batch.extra| == (if iteration % 3 == 0 then 2 else 0)
    && forall t :: t in batch.extra ==> TripleFor(grp, k, t)
  }

  // ------------------------------------------------------------ the shared object

  class PrecomputeBufferContext {
    var max: nat
    var populateOK: bool
    var tripleQueue: seq<Triple>
    var bundleQueue: seq<TwoTriplesAndAQuadruple>

    constructor ()
      ensures max == DEFAULT_PRECOMPUTE_SIZE && !populateOK && tripleQueue == [] && bundleQueue == []
    {
      max, populateOK, tripleQueue, bundleQueue := DEFAULT_PRECOMPUTE_SIZE, false, [], [];
    }

    /** Every queued item satisfies its relations for the key k. */
    ghost predicate FilledFor(grp: Group, k: nat)
      requires 1 < grp.p
      reads this
    {
      && (forall t :: t in tripleQueue ==> TripleFor(grp, k, t))
      && (forall b :: b in bundleQueue ==> BundleFor(grp, k, b))
    }

    method Init(sizeOfQueue: nat)
      modifies this
      ensures populateOK && max == (if sizeOfQueue != 0 then sizeOfQueue else DEFAULT_PRECOMPUTE_SIZE)
      ensures tripleQueue == old(tripleQueue) && bundleQueue == old(bundleQueue)
    {
      populateOK := true;
      max := if sizeOfQueue != 0 then sizeOfQueue else DEFAULT_PRECOMPUTE_SIZE;
    }

    method StopPopulate()
      modifies this`populateOK
      ensures !populateOK
    {
      populateOK := false;
    }

    /** The locked body of the populate loop. */
    method PopulateOnce(grp: Group, elgamalPublicKey: nat, iterationCount: nat) returns (ghost batch: Batch)
      requires 1 < grp.p && populateOK
      modifies this`tripleQueue, this`bundleQueue
      ensures GeneratedFor(grp, elgamalPublicKey, iterationCount, batch)
      ensures bundleQueue == old(bundleQueue) + [batch.bundle] && tripleQueue == old(tripleQueue) + batch.extra
    {
      var triple1 := NewTriple(grp, elgamalPublicKey);
      var triple2 := NewTriple(grp, elgamalPublicKey);
      var quad := NewQuadruple(grp, elgamalPublicKey);
      bundleQueue := bundleQueue + [Bundle(triple1, triple2, quad)];
      ghost var extra := [];
      if iterationCount % 3 == 0 {
        var contestTriple1 := NewTriple(grp, elgamalPublicKey);
        tripleQueue := tripleQueue + [contestTriple1];
        var contestTriple2 := NewTriple(grp, elgamalPublicKey);
        tripleQueue := tripleQueue + [contestTriple2];
        extra := [contestTriple1, contestTriple2];
      }
      batch := Batch(Bundle(triple1, triple2, quad), extra);
    }

    /** Run without interference, populate fills the bundle queue to its maximum, and always by at least one. */
    method Populate(grp: Group, elgamalPublicKey: nat) returns (ghost iterations: nat)
      requires 1 < grp.p
      modifies this`tripleQueue, this`bundleQueue
      ensures iterations == if !old(populateOK) then 0
                            else if |old(bundleQueue)| < max then max - |old(bundleQueue)| else 1
      ensures |bundleQueue| == |old(bundleQueue)| + iterations
      ensures |tripleQueue| == |old(tripleQueue)| + TriplesAfter(iterations)
      ensures old(bundleQueue) <= bundleQueue && old(tripleQueue) <= tripleQueue
      ensures old(FilledFor(grp, elgamalPublicKey)) ==> FilledFor(grp, elgamalPublicKey)
    {
      hide TripleFor, BundleFor, TriplesAfter;
      var iterationCount := 0;
      iterations := 0;
      assert TriplesAfter(0) == 0 by {
        TriplesStep(0);
      }
      var again := true;
      while again
        invariant iterations == iterationCount
        invariant populateOK == old(populateOK) && max == old(max)
        invariant |bundleQueue| == |old(bundleQueue)| + iterationCount
        invariant |tripleQueue| == |old(tripleQueue)| + TriplesAfter(iterationCount)
        invariant old(bundleQueue) <= bundleQueue && old(tripleQueue) <= tripleQueue
        invariant iterationCount > 0 ==> populateOK
        invariant again ==> iterationCount == 0 || |bundleQueue| < max
        invariant !again ==> if populateOK then |bundleQueue| >= max && iterationCount > 0 else iterationCount == 0
        invariant iterationCount > 1 ==> |bundleQueue| <= max
        invariant old(FilledFor(grp, elgamalPublicKey)) ==> FilledFor(grp, elgamalPublicKey)
        decreases again, if |bundleQueue| < max then max - |bundleQueue| else 0
      {
        if !populateOK {
          return;
        }
        ghost var batch := PopulateOnce(grp, elgamalPublicKey, iterationCount);
        TriplesStep(iterationCount);
        iterationCount := iterationCount + 1;
        iterations := iterationCount;
        again := |bundleQueue| < max;
      }
    }

    method GetTwoTriplesAndAQuadruple() returns (result: Result<TwoTriplesAndAQuadruple>)
      modifies this`bundleQueue
      ensures result.Err? <==> old(bundleQueue) == []
      ensures result.Ok? ==> old(bundleQueue) == [result.value] + bundleQueue
      ensures result.Err? ==> bundleQueue == []
    {
      if bundleQueue == [] {
        return Err("empty");
      }
      result := Ok(bundleQueue[0]);
      bundleQueue := bundleQueue[1..];
    }

    method GetTriple() returns (result: Result<Triple>)
      modifies this`tripleQueue
      ensures result.Err? <==> old(tripleQueue) == []
      ensures result.Ok? ==> old(tripleQueue) == [result.value] + tripleQueue
      ensures result.Err? ==> tripleQueue == []
    {
      if tripleQueue == [] {
        return Err("empty");
      }
      result := Ok(tripleQueue[0]);
      tripleQueue := tripleQueue[1..];
    }

    method EmptyQueues()
      modifies this`tripleQueue, this`bundleQueue
      ensures tripleQueue == [] && bundleQueue == []
    {
      var tripleSize := |tripleQueue|;
      for i := 0 to tripleSize
        invariant |tripleQueue| == tripleSize - i
      {
        tripleQueue := tripleQueue[1..];
      }
      var bundleSize := |bundleQueue|;
      for i := 0 to bundleSize
        invariant tripleQueue == [] && |bundleQueue| == bundleSize - i
      {
        bundleQueue := bundleQueue[1..];
      }
    }
  }

  /** rand_q: any reduced value. */
  method RandQ() returns (u: Word)
    ensures u < Q
  {
    u :| 0 <= u < Q;
  }

  method NewTriple(grp: Group, publicKey: nat) returns (t: Triple)
    requires 1 < grp.p
    ensures TripleFor(grp, publicKey, t)
  {
    var rho := RandQ();
    GeneratedAreFor(grp, publicKey, rho, 0);
    t := GenerateTriple(grp, publicKey, rho);
  }

  method NewQuadruple(grp: Group, publicKey: nat) returns (t: Quadruple)
    requires 1 < grp.p
    ensures QuadrupleFor(grp, publicKey, t)
  {
    var sigma := RandQ();
    var rho := RandQ();
    GeneratedAreFor(grp, publicKey, sigma, rho);
    t := GenerateQuadruple(grp, publicKey, sigma, rho);
  }

  // ----------------------------------------------------- all interleavings of the locked steps

  /** A populate call in progress: between its locked iterations it only remembers its key and its counter. */
  datatype Caller = Caller(key: nat, iterations: nat, triples: nat)

  /** An item that left a queue, and whether a consumer got it or an emptying threw it away. */
  datatype Removal<T> = Removal(item: T, dispensed: bool)

  /** One queue with its history: what was pushed, by which key, and what left. */
  datatype Queue<T> = Queue(items: seq<T>, pushed: seq<(nat, T)>, left: seq<Removal<T>>, cleared: nat)

  datatype System = System(max: nat, populateOK: bool, triples: Queue<Triple>,
                           bundles: Queue<TwoTriplesAndAQuadruple>, callers: map<nat, Caller>)

  datatype Step =
    | InitStep(size: nat)
    | StopStep
    | CallPopulate(tid: nat, key: nat)
    | Iterate(tid: nat, batch: Batch)
    | Return(tid: nat)
    | TakeBundle
    | TakeTriple
    | EmptyStep

  ghost function Tagged<T>(key: nat, items: seq<T>): seq<(nat, T)> {
    seq(|items|, i requires 0 <= i < |items| => (key, items[i]))
  }

  ghost function Left<T>(items: seq<T>, dispensed: bool): seq<Removal<T>> {
    seq(|items|, i requires 0 <= i < |items| => Removal(items[i], dispensed))
  }

  ghost function Push<T>(q: Queue<T>, key: nat, items: seq<T>): Queue<T> {
    q.(items := q.items + items, pushed := q.pushed + Tagged(key, items))
  }

  ghost function Pop<T>(q: Queue<T>): Queue<T>
    requires q.items != []
  {
    q.(items := q.items[1..], left := q.left + Left(q.items[..1], true))
  }

  ghost function Clear<T>(q: Queue<T>): Queue<T> {
    q.(items := [], left := q.left + Left(q.items, false), cleared := |q.pushed|)
  }

  /** The effect of a locked step. The loop condition of populate is read outside the lock: Return needs no more. */
  ghost predicate Next(grp: Group, s: System, step: Step, s': System)
    requires 1 < grp.p
  {
    match step
    case InitStep(size) =>
      s' == s.(populateOK := true, max := if size != 0 then size else DEFAULT_PRECOMPUTE_SIZE)
    case StopStep => s' == s.(populateOK := false)
    case CallPopulate(tid, key) => tid !in s.callers && s' == s.(callers := s.callers[tid := Caller(key, 0, 0)])
    case Iterate(tid, batch) =>
      && tid in s.callers && s.populateOK
      && var c := s.callers[tid];
      && GeneratedFor(grp, c.key, c.iterations, batch)
      && s' == s.(bundles := Push(s.bundles, c.key, [batch.bundle]), triples := Push(s.triples, c.key, batch.extra),
                  callers := s.callers[tid := Caller(c.key, c.iterations + 1, c.triples + |batch.extra|)])
    case Return(tid) => tid in s.callers && s' == s.(callers := s.callers - {tid})
    case TakeBundle => s' == if s.bundles.items == [] then s else s.(bundles := Pop(s.bundles))
    case TakeTriple => s' == if s.triples.items == [] then s else s.(triples := Pop(s.triples))
    case EmptyStep => s' == s.(triples := Clear(s.triples), bundles := Clear(s.bundles))
  }

  ghost function Items<T>(pushed: seq<(nat, T)>): (items: seq<T>)
    ensures |items| == |pushed|
  {
    seq(|pushed|, i requires 0 <= i < |pushed| => pushed[i].1)
  }

  ghost function Departed<T>(left: seq<Removal<T>>): (items: seq<T>)
    ensures |items| == |left|
  {
    seq(|left|, i requires 0 <= i < |left| => left[i].item)
  }

  /** First in, first out, and nothing twice: what was pushed is what left followed by what is still queued. */
  ghost predicate Conserved<T>(q: Queue<T>) {
    Items(q.pushed) == Departed(q.left) + q.items && q.cleared <= |q.left|
  }

  ghost predicate Invariant(grp: Group, s: System)
    requires 1 < grp.p
  {
    && Conserved(s.triples) && Conserved(s.bundles)
    && (forall i :: 0 <= i < |s.triples.pushed| ==> TripleFor(grp, s.triples.pushed[i].0, s.triples.pushed[i].1))
    && (forall i :: 0 <= i < |s.bundles.pushed| ==> BundleFor(grp, s.bundles.pushed[i].0, s.bundles.pushed[i].1))
    && (forall tid :: tid in s.callers ==> s.callers[tid].triples == TriplesAfter(s.callers[tid].iterations))
  }

  ghost predicate Initial(s: System) {
    && s.triples == Queue([], [], [], 0) && s.bundles == Queue([], [], [], 0) && s.callers == map[]
  }

  lemma NextPreserves(grp: Group, s: System, step: Step, s': System)
    requires 1 < grp.p && Invariant(grp, s) && Next(grp, s, step, s')
    ensures Invariant(grp, s')
  {
    hide TripleFor, BundleFor, Conserved, TriplesAfter;
    match step
    case InitStep(_) =>
    case StopStep =>
    case CallPopulate(_, _) =>
      TriplesStep(0);
    case Iterate(tid, batch) =>
      var c := s.callers[tid];
      TriplesStep(c.iterations);
      PushConserves(s.bundles, c.key, [batch.bundle]);
      PushConserves(s.triples, c.key, batch.extra);
      assert forall i :: 0 <= i < |batch.extra| ==> batch.extra[i] in batch.extra;
    case Return(_) =>
    case TakeBundle =>
      if s.bundles.items != [] { PopConserves(s.bundles); }
    case TakeTriple =>
      if s.triples.items != [] { PopConserves(s.triples); }
    case EmptyStep =>
      ClearConserves(s.bundles);
      ClearConserves(s.triples);
  }

  lemma PushConserves<T>(q: Queue<T>, key: nat, items: seq<T>)
    requires Conserved(q)
    ensures Conserved(Push(q, key, items))
  {
    assert Items(q.pushed + Tagged(key, items)) == Items(q.pushed) + items;
  }

  lemma PopConserves<T>(q: Queue<T>)
    requires Conserved(q) && q.items != []
    ensures Conserved(Pop(q))
  {
    assert Departed(q.left + Left(q.items[..1], true)) == Departed(q.left) + q.items[..1];
    assert q.items == q.items[..1] + q.items[1..];
  }

  lemma ClearConserves<T>(q: Queue<T>)
    requires Conserved(q)
    ensures Conserved(Clear(q))
  {
    assert Departed(q.left + Left(q.items, false)) == Departed(q.left) + q.items;
  }

  ghost predicate IsRun(grp: Group, run: seq<System>, steps: seq<Step>)
    requires 1 < grp.p
  {
    && |run| == |steps| + 1 && Initial(run[0])
    && forall i :: 0 <= i < |steps| ==> Next(grp, run[i], steps[i], run[i + 1])
  }

  lemma {:induction false} RunInvariant(grp: Group, run: seq<System>, steps: seq<Step>, i: nat)
    requires 1 < grp.p && IsRun(grp, run, steps) && i < |run|
    ensures Invariant(grp, run[i])
  {
    if i == 0 {
    } else {
      RunInvariant(grp, run, steps, i - 1);
      NextPreserves(grp, run[i - 1], steps[i - 1], run[i]);
    }
  }

  /**
   * In every state of every run: if all pushes since the last emptying used the key k, everything a consumer can
   * get is well formed for k. Nothing else about the interleaving matters.
   */
  lemma QueuedItemsMatchKey(grp: Group, run: seq<System>, steps: seq<Step>, i: nat, k: nat)
    requires 1 < grp.p && IsRun(grp, run, steps) && i < |run|
    requires forall j :: run[i].bundles.cleared <= j < |run[i].bundles.pushed| ==> run[i].bundles.pushed[j].0 == k
    requires forall j :: run[i].triples.cleared <= j < |run[i].triples.pushed| ==> run[i].triples.pushed[j].0 == k
    ensures forall b :: b in run[i].bundles.items ==> BundleFor(grp, k, b)
    ensures forall t :: t in run[i].triples.items ==> TripleFor(grp, k, t)
  {
    hide TripleFor, BundleFor;
    RunInvariant(grp, run, steps, i);
    var s := run[i];
    forall b | b in s.bundles.items ensures BundleFor(grp, k, b) {
      var j :| 0 <= j < |s.bundles.items| && s.bundles.items[j] == b;
      assert b == Items(s.bundles.pushed)[|s.bundles.left| + j];
    }
    forall t | t in s.triples.items ensures TripleFor(grp, k, t) {
      var j :| 0 <= j < |s.triples.items| && s.triples.items[j] == t;
      assert t == Items(s.triples.pushed)[|s.triples.left| + j];
    }
  }

  /**
   * No item is handed out twice: the j-th item to leave a queue is the j-th pushed, so two consumers never share
   * one, and what was generated is what was dispensed, discarded or is still queued.
   */
  lemma NothingTwice(grp: Group, run: seq<System>, steps: seq<Step>, i: nat)
    requires 1 < grp.p && IsRun(grp, run, steps) && i < |run|
    ensures Items(run[i].bundles.pushed) == Departed(run[i].bundles.left) + run[i].bundles.items
    ensures Items(run[i].triples.pushed) == Departed(run[i].triples.left) + run[i].triples.items
  {
    hide TripleFor, BundleFor;
    RunInvariant(grp, run, steps, i);
  }
}
