/** The two-lock linked queue of src/electionguard/async.hpp. */
module AsyncQueues {

  datatype Option<+T> = None | Some(value: T)

  // ------------------------------------------------------------- the linked object

  class Node<T> {
    var data: Option<T>
    var next: Node?<T>

    constructor ()
      ensures data == None && next == null
    {
      data, next := None, null;
    }
  }

  class AsyncQueue<T> {
    var head: Node<T>
    var tail: Node<T>
    ghost var spine: seq<Node<T>>

    /** The chain from head to tail: every node but the last carries data, the last is an empty dummy. */
    ghost predicate Valid()
      reads this, spine
    {
      && |spine| >= 1 && spine[0] == head && spine[|spine| - 1] == tail
      && (forall i, j :: 0 <= i < j < |spine| ==> spine[i] != spine[j])
      && (forall i :: 0 <= i < |spine| - 1 ==> spine[i].data.Some? && spine[i].next == spine[i + 1])
      && tail.data == None && tail.next == null
    }

    ghost function Contents(): seq<T>
      requires Valid()
      reads this, spine
    {
      seq(|spine| - 1, i requires 0 <= i < |spine| - 1 reads this, spine requires Valid() => spine[i].data.value)
    }

    constructor ()
      ensures Valid() && Contents() == [] && fresh(spine)
    {
      var dummy := new Node<T>();
      head, tail, spine := dummy, dummy, [dummy];
    }

    method Empty() returns (r: bool)
      requires Valid()
      ensures r <==> Contents() == []
    {
      r := head == tail;
    }

    method Push(value: T)
      requires Valid()
      modifies this, spine
      ensures Valid() && fresh(set n | n in spine && n !in old(spine))
      ensures Contents() == old(Contents()) + [value]
    {
      var node := new Node<T>();
      tail.data := Some(value);
      tail.next := node;
      tail := node;
      spine := spine + [node];
    }

    method Pop() returns (r: Option<T>)
      requires Valid()
      modifies this
      ensures Valid() && (forall n :: n in spine ==> n in old(spine))
      ensures r == if old(Contents()) == [] then None else Some(old(Contents())[0])
      ensures Contents() == if old(Contents()) == [] then [] else old(Contents())[1..]
    {
      if head == tail {
        return None;
      }
      assert spine[0].next == spine[1];
      var old_ := head;
      head := old_.next;
      spine := spine[1..];
      r := old_.data;
    }
  }

  // ------------------------------------- every interleaving, one memory access at a time

  datatype Cell<T> = Cell(data: Option<T>, next: Option<nat>)

  /** Progress of the thread that holds the tail lock: the three assignments of push. */
  datatype TailLock<T> = TailFree | Pushing(tid: nat, value: T, node: nat, stored: bool, linked: bool)

  /** Progress of the thread that holds the head lock. */
  datatype HeadLock<T> =
    | HeadFree
    | FirstCheck(tid: nat, byValue: bool)
    | Moving(tid: nat)
    | SecondCheck(tid: nat, moved: Option<T>)
    | Unlinking(tid: nat, moved: Option<T>)
    | EmptyCheck(tid: nat)

  /** What calls have returned, in the order of their effect. */
  datatype Shared<T> = Shared(
    heap: map<nat, Cell<T>>, head: nat, tail: nat, headLock: HeadLock<T>, tailLock: TailLock<T>,
    pushed: seq<T>, popped: seq<T>, chain: seq<nat>)

  datatype Action<T> =
    | LockTail(tid: nat, value: T, node: nat)
    | StoreData
    | LinkNode
    | MoveTail
    | LockHeadToPop(tid: nat, byValue: bool)
    | CompareFirst(answer: bool)
    | MoveData
    | CompareAgain(answer: bool)
    | AdvanceHead(result: T)
    | LockHeadToTest(tid: nat)
    | AnswerEmpty(answer: bool)

  ghost predicate Initial<T>(s: Shared<T>) {
    && s.heap == map[s.head := Cell(None, None)] && s.tail == s.head
    && s.headLock == HeadFree && s.tailLock == TailFree
    && s.pushed == [] && s.popped == [] && s.chain == [s.head]
  }

  /** One access by one thread. Reads of the tail need the tail lock, so they wait while a push is under way. */
  ghost predicate Next<T>(s: Shared<T>, a: Action<T>, s': Shared<T>) {
    match a
    case LockTail(tid, value, node) =>
      && s.tailLock == TailFree && node !in s.heap
      && s' == s.(heap := s.heap[node := Cell(None, None)], tailLock := Pushing(tid, value, node, false, false))
    case StoreData =>
      && s.tailLock.Pushing? && !s.tailLock.stored && s.tail in s.heap
      && s' == s.(heap := s.heap[s.tail := s.heap[s.tail].(data := Some(s.tailLock.value))],
                  tailLock := s.tailLock.(stored := true))
    case LinkNode =>
      && s.tailLock.Pushing? && s.tailLock.stored && !s.tailLock.linked && s.tail in s.heap
      && s' == s.(heap := s.heap[s.tail := s.heap[s.tail].(next := Some(s.tailLock.node))],
                  tailLock := s.tailLock.(linked := true))
    case MoveTail =>
      && s.tailLock.Pushing? && s.tailLock.linked
      && s' == s.(tail := s.tailLock.node, tailLock := TailFree, pushed := s.pushed + [s.tailLock.value],
                  chain := s.chain + [s.tailLock.node])
    case LockHeadToPop(tid, byValue) =>
      s.headLock == HeadFree && s' == s.(headLock := FirstCheck(tid, byValue))
    case CompareFirst(answer) =>
      && s.headLock.FirstCheck? && s.tailLock == TailFree && answer == (s.head == s.tail)
      && var tid := s.headLock.tid;
      && s' == s.(headLock := if answer then HeadFree else if s.headLock.byValue then Moving(tid)
                              else SecondCheck(tid, None))
    case MoveData =>
      && s.headLock.Moving? && s.head in s.heap && s.heap[s.head].data.Some?
      && s' == s.(headLock := SecondCheck(s.headLock.tid, s.heap[s.head].data))
    case CompareAgain(answer) =>
      && s.headLock.SecondCheck? && s.tailLock == TailFree && answer == (s.head == s.tail)
      && s' == s.(headLock := if answer then HeadFree else Unlinking(s.headLock.tid, s.headLock.moved))
    case AdvanceHead(result) =>
      && s.headLock.Unlinking? && s.head in s.heap && s.heap[s.head].next.Some? && s.chain != []
      && (s.headLock.moved == Some(result) || (s.headLock.moved == None && s.heap[s.head].data == Some(result)))
      && s' == s.(head := s.heap[s.head].next.value, headLock := HeadFree, popped := s.popped + [result],
                  chain := s.chain[1..])
    case LockHeadToTest(tid) =>
      s.headLock == HeadFree && s' == s.(headLock := EmptyCheck(tid))
    case AnswerEmpty(answer) =>
      && s.headLock.EmptyCheck? && s.tailLock == TailFree && answer == (s.head == s.tail)
      && s' == s.(headLock := HeadFree)
  }

  /** The tail node while a push fills it in; without a push it is the empty dummy. */
  ghost function TailCell<T>(lock: TailLock<T>): Cell<T> {
    match lock
    case TailFree => Cell(None, None)
    case Pushing(_, value, node, stored, linked) =>
      Cell(if stored then Some(value) else None, if linked then Some(node) else None)
  }

  ghost predicate Chained<T>(s: Shared<T>) {
    && |s.chain| >= 1 && s.chain[0] == s.head && s.chain[|s.chain| - 1] == s.tail
    && (forall i, j :: 0 <= i < j < |s.chain| ==> s.chain[i] != s.chain[j])
    && (forall i :: 0 <= i < |s.chain| ==> s.chain[i] in s.heap)
    && s.heap[s.tail] == TailCell(s.tailLock)
    && |s.popped| + |s.chain| - 1 == |s.pushed|
    && (forall i :: 0 <= i < |s.chain| - 1 ==>
          s.heap[s.chain[i]] == Cell(Some(s.pushed[|s.popped| + i]), Some(s.chain[i + 1])))
  }

  ghost predicate Invariant<T>(s: Shared<T>) {
    && Chained(s)
    && (s.tailLock.Pushing? ==>
          && s.tailLock.node !in s.chain && s.tailLock.node in s.heap
          && s.heap[s.tailLock.node] == Cell(None, None)
          && (s.tailLock.linked ==> s.tailLock.stored))
    // whoever got past the first comparison owns a data node, whatever is pushed meanwhile
    && (s.headLock.Moving? || s.headLock.SecondCheck? || s.headLock.Unlinking? ==> |s.chain| >= 2)
    && (s.headLock.SecondCheck? || s.headLock.Unlinking? ==>
          s.headLock.moved.Some? ==> s.headLock.moved.value == s.pushed[|s.popped|])
    && s.popped == s.pushed[..|s.popped|]
  }

  /** Steps of a push before its effect: they only touch the dummy node and the node to come. */
  lemma FillSteps<T>(s: Shared<T>, a: Action<T>, s': Shared<T>)
    requires Invariant(s) && Next(s, a, s')
    requires a.LockTail? || a.StoreData? || a.LinkNode?
    ensures Invariant(s')
  {
    assert s'.popped == s'.pushed[..|s'.popped|];
  }

  lemma MoveTailStep<T>(s: Shared<T>, a: Action<T>, s': Shared<T>)
    requires Invariant(s) && Next(s, a, s') && a.MoveTail?
    ensures Invariant(s')
  {
    assert s'.popped == s'.pushed[..|s'.popped|];
  }

  lemma OldestCell<T>(s: Shared<T>)
    requires Chained(s) && |s.chain| >= 2
    ensures s.heap[s.head] == Cell(Some(s.pushed[|s.popped|]), Some(s.chain[1]))
  {
    assert s.head == s.chain[0];
  }

  /** Steps of a pop or of an emptiness test that only move the head lock along. */
  lemma CheckSteps<T>(s: Shared<T>, a: Action<T>, s': Shared<T>)
    requires Invariant(s) && Next(s, a, s')
    requires !(a.LockTail? || a.StoreData? || a.LinkNode? || a.MoveTail? || a.AdvanceHead?)
    ensures Invariant(s')
  {
    assert s.head == s.chain[0] && s.tail == s.chain[|s.chain| - 1];
    assert s' == s.(headLock := s'.headLock);
    assert s'.popped == s'.pushed[..|s'.popped|];
    if |s.chain| >= 2 {
      OldestCell(s);
    }
  }

  lemma AdvanceStep<T>(s: Shared<T>, a: Action<T>, s': Shared<T>)
    requires Invariant(s) && Next(s, a, s') && a.AdvanceHead?
    ensures Invariant(s')
  {
    OldestCell(s);
    assert s'.popped == s.pushed[..|s.popped| + 1];
    forall i | 0 <= i < |s'.chain| - 1
      ensures s'.heap[s'.chain[i]] == Cell(Some(s'.pushed[|s'.popped| + i]), Some(s'.chain[i + 1]))
    {
      assert s'.chain[i] == s.chain[i + 1];
    }
  }

  ghost predicate IsRun<T>(run: seq<Shared<T>>, actions: seq<Action<T>>) {
    && |run| == |actions| + 1 && Initial(run[0])
    && forall i :: 0 <= i < |actions| ==> Next(run[i], actions[i], run[i + 1])
  }

  lemma {:induction false} RunInvariant<T>(run: seq<Shared<T>>, actions: seq<Action<T>>, i: nat)
    requires IsRun(run, actions) && i < |run|
    ensures Invariant(run[i])
  {
    if i == 0 {
    } else {
      RunInvariant(run, actions, i - 1);
      var a := actions[i - 1];
      assert Next(run[i - 1], a, run[i]);
      if a.LockTail? || a.StoreData? || a.LinkNode? {
        FillSteps(run[i - 1], a, run[i]);
      } else if a.MoveTail? {
        MoveTailStep(run[i - 1], a, run[i]);
      } else if a.AdvanceHead? {
        AdvanceStep(run[i - 1], a, run[i]);
      } else {
        CheckSteps(run[i - 1], a, run[i]);
      }
    }
  }

  /**
   * At every moment of every run, what was popped is a prefix of what was pushed: oldest first, nothing twice or lost.
   */
  lemma PopsFollowPushes<T>(run: seq<Shared<T>>, actions: seq<Action<T>>, i: nat)
    requires IsRun(run, actions) && i < |run|
    ensures run[i].popped <= run[i].pushed
    ensures |run[i].pushed| - |run[i].popped| == |run[i].chain| - 1
  {
    RunInvariant(run, actions, i);
  }

  /** A pop delivers the oldest value that was pushed and not yet popped. */
  lemma PopIsOldest<T>(run: seq<Shared<T>>, actions: seq<Action<T>>, i: nat)
    requires IsRun(run, actions) && i < |actions| && actions[i].AdvanceHead?
    ensures |run[i].popped| < |run[i].pushed|
    ensures actions[i].result == run[i].pushed[|run[i].popped|]
  {
    RunInvariant(run, actions, i);
    assert Next(run[i], actions[i], run[i + 1]);
    var s := run[i];
    assert s.heap[s.chain[0]] == Cell(Some(s.pushed[|s.popped|]), Some(s.chain[1]));
  }

  /** Emptiness is answered correctly, and the second comparison of a pop never finds the queue empty. */
  lemma AnswersAreCorrect<T>(run: seq<Shared<T>>, actions: seq<Action<T>>, i: nat)
    requires IsRun(run, actions) && i < |actions|
    ensures actions[i].CompareFirst? || actions[i].AnswerEmpty? ==>
              (actions[i].answer <==> run[i].popped == run[i].pushed)
    ensures actions[i].CompareAgain? ==> !actions[i].answer
  {
    RunInvariant(run, actions, i);
    assert Next(run[i], actions[i], run[i + 1]);
    var s := run[i];
    assert s.head == s.tail <==> |s.chain| == 1;
  }

  /** The thread in the middle of a pop never follows an empty link: its next access is possible. */
  lemma PopIsNotStuck<T>(run: seq<Shared<T>>, actions: seq<Action<T>>, i: nat)
    requires IsRun(run, actions) && i < |run|
    ensures run[i].headLock.Moving? ==> run[i].head in run[i].heap && run[i].heap[run[i].head].data.Some?
    ensures run[i].headLock.Unlinking? ==> run[i].head in run[i].heap && run[i].heap[run[i].head].next.Some?
    ensures run[i].tail in run[i].heap
  {
    RunInvariant(run, actions, i);
    var s := run[i];
    if |s.chain| >= 2 {
      assert s.heap[s.chain[0]] == Cell(Some(s.pushed[|s.popped|]), Some(s.chain[1]));
    }
    assert s.tail == s.chain[|s.chain| - 1];
  }
}
