/**
 The timer queue of callout.c: a linked list in the heap.

 Each method is shown to do to the list what `TimerRuns.QueueStep`, `Fired`, `Left` and
 `NextWakeup` say.
 */
module Callouts {
  import opened TimerLists
  import opened TimerRuns

  class TimerNode<T> {
    var next: TimerNode?<T>
    const id: int
    const action: T
    var time: int

    constructor (id: int, action: T, time: int)
      ensures Value() == Entry(id, action, time) && next == null
    {
      this.id, this.action, this.time, next := id, action, time, null;
    }

    ghost function Value(): Entry<T>
      reads `time
    {
      Entry(id, action, time)
    }
  }

  ghost function NodeAt<T>(ns: seq<TimerNode<T>>, i: nat): TimerNode?<T> {
    if i < |ns| then ns[i] else null
  }

  ghost predicate LinkedAt<T>(ns: seq<TimerNode<T>>, i: nat)
    requires i < |ns|
    reads ns`next
  {
    ns[i].next == NodeAt(ns, i + 1)
  }

  ghost predicate Distinct<T>(ns: seq<TimerNode<T>>) {
    forall i, j :: 0 <= i < j < |ns| ==> ns[i] != ns[j]
  }

  /** The nodes form a list: each points to the one behind it, the last to nothing. */
  ghost predicate Linked<T>(ns: seq<TimerNode<T>>)
    reads ns`next
  {
    Distinct(ns) && forall i :: 0 <= i < |ns| ==> LinkedAt(ns, i)
  }

  ghost predicate Apart<T>(ns: seq<TimerNode<T>>, ms: seq<TimerNode<T>>) {
    forall i, j :: 0 <= i < |ns| && 0 <= j < |ms| ==> ns[i] != ms[j]
  }

  /** The nodes of `ms` are nodes of `ns` or have been allocated since. */
  twostate predicate Grown<T>(ns: seq<TimerNode<T>>, new ms: seq<TimerNode<T>>) {
    forall i :: 0 <= i < |ms| ==> ms[i] in ns || fresh(ms[i])
  }

  /** The values in a list of nodes. */
  ghost function Values<T>(ns: seq<TimerNode<T>>): (es: seq<Entry<T>>)
    reads ns`time
    ensures |es| == |ns|
  {
    if ns == [] then [] else [ns[0].Value()] + Values(ns[1..])
  }

  lemma {:induction false} ValueAt<T>(ns: seq<TimerNode<T>>, i: nat)
    requires i < |ns|
    ensures Values(ns)[i] == ns[i].Value()
  {
    if i > 0 {
      ValueAt(ns[1..], i - 1);
    }
  }

  lemma {:induction false} ValuesConcat<T>(a: seq<TimerNode<T>>, b: seq<TimerNode<T>>)
    ensures Values(a + b) == Values(a) + Values(b)
  {
    if a == [] {
      assert a + b == b;
    } else {
      assert (a + b)[1..] == a[1..] + b;
      ValuesConcat(a[1..], b);
    }
  }

  lemma ValuesSplit<T>(ns: seq<TimerNode<T>>, k: nat)
    requires k <= |ns|
    ensures Values(ns[..k]) == Values(ns)[..k] && Values(ns[k..]) == Values(ns)[k..]
  {
    assert ns[..k] + ns[k..] == ns;
    ValuesConcat(ns[..k], ns[k..]);
  }

  lemma ActionsOf<T>(ns: seq<TimerNode<T>>)
    ensures forall i :: 0 <= i < |ns| ==> Values(ns)[i].action == ns[i].action
  {
    forall i | 0 <= i < |ns|
      ensures Values(ns)[i].action == ns[i].action
    {
      ValueAt(ns, i);
    }
  }

  /** Ends the list after `ptr`, its node at position `k - 1`. */
  method CutAfter<T>(ptr: TimerNode<T>, ghost ns: seq<TimerNode<T>>, ghost k: nat)
    requires Linked(ns) && 0 < k <= |ns| && ptr == ns[k - 1]
    modifies ptr`next
    ensures Linked(ns[..k]) && Linked(ns[k..])
  {
    TailOfList(ns, k);
    ptr.next := null;
    ghost var front, back := ns[..k], ns[k..];
    forall i | 0 <= i < |front|
      ensures LinkedAt(front, i)
    {
      assert i < k - 1 ==> old(LinkedAt(ns, i));
    }
    forall i | 0 <= i < |back|
      ensures LinkedAt(back, i)
    {
      assert old(LinkedAt(back, i));
    }
  }

  lemma NoNodes<T>()
    ensures Linked<T>([]) && NodeAt<T>([], 0) == null
  {
  }

  /** The two parts of a list at some position. */
  lemma SplitList<T>(ns: seq<TimerNode<T>>, k: nat)
    requires Linked(ns) && k <= |ns|
    ensures Linked(ns[k..]) && Distinct(ns[k..]) && NodeAt(ns[k..], 0) == NodeAt(ns, k)
    ensures Values(ns[k..]) == Values(ns)[k..]
    ensures k > 0 ==> NodeAt(ns[..k], 0) == NodeAt(ns, 0)
    ensures k == |ns| ==> ns[..k] == ns && ns[k..] == []
    ensures k == 0 ==> ns[..k] == [] && ns[k..] == ns
  {
    hide Values;
    TailOfList(ns, k);
    ValuesSplit(ns, k);
  }

  lemma HeadOfList<T>(ns: seq<TimerNode<T>>)
    ensures ns[0..] == ns && ns[..0] == []
  {
  }

  /** Adds to the time of one node of a list. */
  method Postpone<T>(node: TimerNode<T>, units: int, ghost ns: seq<TimerNode<T>>, ghost k: nat)
    requires k < |ns| && node == ns[k] && Distinct(ns)
    modifies node`time
    ensures Values(ns) == old(Values(ns))[k := old(Values(ns))[k].(time := old(Values(ns))[k].time + units)]
  {
    hide Values;
    ghost var front, back := ns[..k], ns[k + 1..];
    assert ns == front + ([node] + back);
    ValuesConcat(front, [node] + back);
    ValuesConcat([node], back);
    ValueAt([node], 0);
    label before:
    node.time := node.time + units;
    assert Values(front) == old@before(Values(front));
    assert Values(back) == old@before(Values(back));
    ValuesConcat(front, [node] + back);
    ValuesConcat([node], back);
    ValueAt([node], 0);
  }

  /** Ages `first`, the node at position `k`, and ends the list before it. */
  method Split<T>(prev: TimerNode?<T>, first: TimerNode<T>, e: int, ghost ns: seq<TimerNode<T>>, ghost k: nat)
    requires Linked(ns) && k < |ns| && first == ns[k] && prev == (if k > 0 then ns[k - 1] else null)
    modifies first`time, ns`next
    ensures Linked(ns[..k]) && Linked(ns[k..]) && NodeAt(ns[..k], 0) == (if k > 0 then ns[0] else null)
    ensures k == 0 ==> Linked(ns)
    ensures Values(ns[k..]) == Deduct(old(Values(ns))[k..], e)
  {
    hide Values;
    SplitList(ns, k);
    DeductIsUpdate(Values(ns)[k..], e);
    Postpone(first, -e, ns[k..], 0);
    if prev != null {
      CutAfter(prev, ns, k);
    }
  }

  /** What a timer does when it expires: nothing, or to call its function with its data. */
  datatype Action<D> = NoFunction | Function(data: D)

  /** The data with which functions are called for a list of actions, in order. */
  function Calls<D>(actions: seq<Action<D>>): seq<D>
    decreases actions
  {
    if actions == [] then [] else
      var last := |actions| - 1;
      Calls(actions[..last]) + (if actions[last].Function? then [actions[last].data] else [])
  }

  /**
   What the called functions ask of the queue, one after the other; `effects[j]` is what the
   function of the `j`-th expired timer asks, if it has one.
   */
  function Requests<D>(actions: seq<Action<D>>, effects: seq<seq<Op<Action<D>>>>): seq<Op<Action<D>>>
    decreases actions
  {
    if actions == [] then [] else
      var last := |actions| - 1;
      Requests(actions[..last], effects)
      + (if actions[last].Function? && last < |effects| then effects[last] else [])
  }

  function ActionsIn<T>(ts: seq<Timer<T>>): (r: seq<T>)
    ensures |r| == |ts|
  {
    seq(|ts|, i requires 0 <= i < |ts| => ts[i].action)
  }

  /**
   A call from outside: to set or clear a timer, or to age the queue by `elapsed` units, during
   which the functions of the expired timers ask for `effects`.
   */
  datatype Event<D> = Request(op: Op<Action<D>>) | Ageing(elapsed: int, effects: seq<seq<Op<Action<D>>>>)

  predicate IsCall<D>(e: Event<D>) {
    match e
    case Request(op) => !op.Age?
    case Ageing(_, effects) => forall j :: 0 <= j < |effects| ==> NoAge(effects[j])
  }

  /** What happens to the queue during one call. */
  function OpsOf<D>(q: Queue<Action<D>>, e: Event<D>): seq<Op<Action<D>>> {
    match e
    case Request(op) => [op]
    case Ageing(elapsed, effects) =>
      [Op.Age(elapsed)] + Requests(ActionsIn(Fired(q, Op.Age(elapsed))), effects)
  }

  /** What happens to the queue during a sequence of calls. */
  function AllOps<D>(q: Queue<Action<D>>, events: seq<Event<D>>): seq<Op<Action<D>>>
    decreases events
  {
    if events == [] then [] else
      OpsOf(q, events[0]) + AllOps(QueueRun(q, OpsOf(q, events[0])), events[1..])
  }

  class CalloutQueue<D> {
    var Q: TimerNode?<Action<D>>
    var id: int
    ghost var nodes: seq<TimerNode<Action<D>>>

    ghost predicate Valid()
      reads `Q, `nodes, nodes`next
    {
      Linked(nodes) && Q == NodeAt(nodes, 0)
    }

    ghost function Current(): Queue<Action<D>>
      reads `nodes, `id, nodes`time
    {
      Queue(Values(nodes), id)
    }

    /** `prev` and `ptr` point to positions `k - 1` and `k` of the list. */
    ghost predicate Cursor(prev: TimerNode?<Action<D>>, ptr: TimerNode?<Action<D>>, k: nat)
      reads `nodes
    {
      k <= |nodes| && ptr == NodeAt(nodes, k) && (k > 0 ==> prev == nodes[k - 1])
    }

    constructor ()
      ensures Valid() && nodes == [] && Current() == EmptyQueue<Action<D>>() == Queue([], 0)
    {
      Q, id, nodes := null, 0, [];
    }

    /** Links `node` into the list at position `k`, in front of `ptr` or at the end. */
    method Link(prev: TimerNode?<Action<D>>, ptr: TimerNode?<Action<D>>, node: TimerNode<Action<D>>, ghost k: nat)
      requires Valid() && Cursor(prev, ptr, k) && node !in nodes
      modifies `Q, `nodes, nodes`next, node`next
      ensures Valid() && Distinct(nodes) && nodes == old(nodes)[..k] + [node] + old(nodes)[k..]
    {
      ghost var ns := nodes;
      node.next := ptr;
      if ptr == Q {
        assert k == 0;
        Q := node;
      } else {
        prev.next := node;
      }
      nodes := ns[..k] + [node] + ns[k..];
      forall i | 0 <= i < |nodes|
        ensures LinkedAt(nodes, i)
      {
        if i < k {
          assert old(LinkedAt(ns, i)) && nodes[i] == ns[i];
        } else if i > k {
          assert old(LinkedAt(ns, i - 1)) && nodes[i] == ns[i - 1];
        }
      }
    }

    /** Puts `node` into the list at position `k`; the node behind it gives up that much time. */
    method Place(prev: TimerNode?<Action<D>>, ptr: TimerNode?<Action<D>>, node: TimerNode<Action<D>>, ghost k: nat)
      requires Valid() && Cursor(prev, ptr, k) && node !in nodes
      modifies `Q, `nodes, nodes, node
      ensures Valid() && nodes == old(nodes)[..k] + [node] + old(nodes)[k..]
      ensures Values(nodes)
           == old(Values(nodes))[..k] + ([old(node.Value())] + Deduct(old(Values(nodes))[k..], old(node.time)))
    {
      hide Values, Linked, Deduct, Distinct, Inserted;
      ghost var ns, es, n := nodes, Values(nodes), node.Value();
      Link(prev, ptr, node, k);
      ghost var fs := Inserted(es, k, n);
      InsertedValues(ns, node, k);
      DeductFirst(es, k, n);
      if ptr != null {
        assert nodes[k + 1] == ptr;
        Postpone(ptr, -node.time, nodes, k + 1);
      }
    }

    /** Takes `ptr`, the node at position `k`, out of the list. */
    method Unlink(prev: TimerNode?<Action<D>>, ptr: TimerNode<Action<D>>, ghost k: nat)
      requires Valid() && Cursor(prev, ptr, k)
      modifies `Q, `nodes, nodes`next
      ensures Valid() && Distinct(nodes) && nodes == old(nodes)[..k] + old(nodes)[k + 1..]
      ensures ptr.next == NodeAt(nodes, k)
    {
      ghost var ns := nodes;
      assert LinkedAt(ns, k);
      if ptr == Q {
        assert k == 0;
        Q := Q.next;
      } else {
        prev.next := ptr.next;
      }
      nodes := ns[..k] + ns[k + 1..];
      forall i | 0 <= i < |nodes|
        ensures LinkedAt(nodes, i)
      {
        if i < k {
          assert old(LinkedAt(ns, i)) && nodes[i] == ns[i];
        } else {
          assert old(LinkedAt(ns, i + 1)) && nodes[i] == ns[i + 1];
        }
      }
    }

    /** Takes `ptr` out of the list; the node behind it takes over its time. */
    method Remove(prev: TimerNode?<Action<D>>, ptr: TimerNode<Action<D>>, ghost k: nat)
      requires Valid() && Cursor(prev, ptr, k)
      modifies `Q, `nodes, nodes
      ensures Valid() && nodes == old(nodes)[..k] + old(nodes)[k + 1..]
      ensures Values(nodes)
           == old(Values(nodes))[..k] + Deduct(old(Values(nodes))[k + 1..], -old(Values(nodes))[k].time)
    {
      hide Deduct, Linked, Values, Distinct;
      ghost var es, ns := Values(nodes), nodes;
      NextNode(ns, k);
      Unlink(prev, ptr, k);
      RemovedValues(ns, k);
      RemovedFirst(es, k);
      if ptr.next != null {
        Postpone(ptr.next, ptr.time, nodes, k);
      }
    }

    /**
     Sets a timer and answers its identifier, which is new; `memory` tells whether there is
     room for its node.
     */
    method SetTimer(delay: int, action: Action<D>, memory: bool) returns (r: int)
      requires Valid()
      modifies this, nodes
      ensures Valid()
      ensures Current() == if memory then QueueStep(old(Current()), Op.SetTimer(delay, action)) else old(Current())
      ensures r == if memory then old(Current()).lastId + 1 else -1
      ensures memory && IdsGivenOut(old(Current())) ==> Left(old(Current()), r) == -1 && Left(Current(), r) == delay
      ensures Grown(old(nodes), nodes)
    {
      hide InsertEntry, Linked, Values, IdsGivenOut, Left;
      if !memory {
        return -1;
      }
      if IdsGivenOut(Current()) {
        NewIdentifier(Current(), delay, action);
      }
      id := id + 1;
      var node := new TimerNode(id, action, delay);
      Enqueue(node);
      return id;
    }

    /** Walks to the first timer that expires later than `node` and places `node` in front of it. */
    method Enqueue(node: TimerNode<Action<D>>)
      requires Valid() && node !in nodes
      modifies `Q, `nodes, nodes, node
      ensures Valid()
      ensures Values(nodes) == InsertEntry(old(Values(nodes)), node.id, node.action, old(node.time))
      ensures forall i :: 0 <= i < |nodes| ==> nodes[i] == node || nodes[i] in old(nodes)
    {
      hide InsertEntry, Passed, TotalTime, Deduct, Linked, Values, Distinct;
      ghost var es, ns, delay := Values(nodes), nodes, node.time;
      var d := node.time;
      var prev, ptr := Q, Q;
      ghost var k := 0;
      TotalNone(es);
      while ptr != null
        invariant nodes == ns && Valid() && Values(ns) == es
        invariant Cursor(prev, ptr, k)
        invariant node.time == d == delay - TotalTime(es[..k])
        invariant Passed(es, delay) == k + Passed(es[k..], d)
        decreases |ns| - k
      {
        NextNode(ns, k);
        PassedNext(es, k, d);
        if d < ptr.time {
          Place(prev, ptr, node, k);
          InsertedEntry(es, k, node.id, node.action, delay);
          return;
        }
        d := d - ptr.time;
        node.time := d;
        prev := ptr;
        ptr := ptr.next;
        k := k + 1;
      }
      PassedAll(es, k, d);
      Place(prev, ptr, node, k);
      InsertedEntry(es, k, node.id, node.action, delay);
    }

    /** Takes a timer out of the list; the one behind it takes over its time. */
    method ClearTimer(timerId: int)
      requires Valid()
      modifies this, nodes
      ensures Valid()
      ensures Current() == QueueStep(old(Current()), Op.ClearTimer(timerId))
      ensures Grown(old(nodes), nodes)
    {
      hide QueueStep, RemoveEntry, Find, Deduct, Linked, Values, Distinct;
      ClearedQueue(Current(), timerId);
      if timerId == 0 || timerId == -1 {
        return;
      }
      ghost var es, ns := Values(nodes), nodes;
      var prev, ptr := Q, Q;
      ghost var k := 0;
      while ptr != null
        invariant nodes == ns && Valid() && Values(ns) == es && id == old(id)
        invariant Cursor(prev, ptr, k)
        invariant k <= Find(es, timerId)
        decreases |ns| - k
      {
        NextNode(ns, k);
        FindNext(es, k, timerId);
        if ptr.id == timerId {
          Remove(prev, ptr, k);
          return;
        }
        prev := ptr;
        ptr := ptr.next;
        k := k + 1;
      }
      FindNext(es, k, timerId);
    }

    /** The time that a timer has left, or -1. */
    method LeftTimer(timerId: int) returns (left: int)
      requires Valid()
      ensures left == Left(Current(), timerId)
    {
      hide TotalTime, Find, Remaining, Linked, Values;
      left := 0;
      if timerId == 0 {
        return -1;
      }
      ghost var es := Values(nodes);
      ghost var k := 0;
      TotalNone(es);
      var ptr := Q;
      while ptr != null
        invariant k <= |nodes| && ptr == NodeAt(nodes, k)
        invariant left == TotalTime(es[..k])
        invariant k <= Find(es, timerId)
        decreases |nodes| - k
      {
        NextNode(nodes, k);
        FindNext(es, k, timerId);
        left := left + ptr.time;
        TotalSnoc(es, k);
        if ptr.id == timerId {
          LeftIsTotal(es, k);
          return left;
        }
        ptr := ptr.next;
        k := k + 1;
      }
      return -1;
    }

    /** How long until the first timer expires, or -1. */
    method NextTimer() returns (time: int)
      requires Valid()
      ensures time == NextWakeup(Current())
    {
      if Q != null {
        if Q.time < 0 {
          return 0;
        }
        return Q.time;
      }
      return -1;
    }

    /** Splits off the `k` timers that expire within `elapsed` units, and ages the others. */
    method Expire(elapsed: int) returns (expQ: TimerNode?<Action<D>>, ghost k: nat)
      requires Valid()
      modifies this, nodes
      ensures Valid()
      ensures Current() == QueueStep(old(Current()), Op.Age(elapsed))
      ensures k == Passed(old(Current()).entries, elapsed) && nodes == old(nodes)[k..]
      ensures Linked(old(nodes)[..k]) && expQ == NodeAt(old(nodes)[..k], 0)
    {
      hide QueueStep, AgedEntries, Passed, TotalTime, Linked, Values, Distinct, Deduct;
      AgedQueue(Current(), elapsed);
      ghost var es, ns := Values(nodes), nodes;
      expQ := Q;
      var ptr: TimerNode?<Action<D>> := null;
      var e := elapsed;
      k := 0;
      TotalNone(es);
      while Q != null
        invariant nodes == ns && Linked(ns) && Values(ns) == es && id == old(id)
        invariant k <= |ns| && Q == NodeAt(ns, k) && ptr == (if k > 0 then ns[k - 1] else null)
        invariant e == elapsed - TotalTime(es[..k])
        invariant Passed(es, elapsed) == k + Passed(es[k..], e)
        decreases |ns| - k
      {
        NextNode(ns, k);
        PassedNext(es, k, e);
        if Q.time > e {
          AgedFirst(es, k, elapsed);
          Split(ptr, Q, e, ns, k);
          if ptr != null {
            nodes := ns[k..];
            return;
          }
          NoNodes<Action<D>>();
          HeadOfList(ns);
          return null, 0;
        }
        e := e - Q.time;
        ptr := Q;
        Q := Q.next;
        k := k + 1;
      }
      PassedAll(es, k, e);
      AgedFirst(es, k, elapsed);
      SplitList(ns, k);
      nodes := ns[k..];
    }

    /** Carries out what a function asks of the queue. */
    method Perform(ops: seq<Op<Action<D>>>)
      requires Valid() && NoAge(ops)
      modifies this, nodes
      ensures Valid()
      ensures Current() == QueueRun(old(Current()), ops)
      ensures Grown(old(nodes), nodes)
    {
      hide QueueStep, Linked, Values, QueueRun;
      ghost var start := Current();
      assert ops[0..] == ops;
      for i := 0 to |ops|
        invariant Valid()
        invariant QueueRun(Current(), ops[i..]) == QueueRun(start, ops)
        invariant Grown(old(nodes), nodes)
      {
        RunStep(Current(), ops, i);
        match ops[i]
        case SetTimer(delay, action) =>
          var r := this.SetTimer(delay, action, true);
        case ClearTimer(id) =>
          this.ClearTimer(id);
      }
      RunNothing(Current(), ops);
    }

    /** Calls the functions of the expired timers `ns`, which are no longer part of the queue. */
    method CallExpired(first: TimerNode?<Action<D>>, ghost ns: seq<TimerNode<Action<D>>>,
                       effects: seq<seq<Op<Action<D>>>>)
      returns (called: seq<D>)
      requires Valid() && Linked(ns) && first == NodeAt(ns, 0)
      requires Apart(ns, nodes)
      requires forall j :: 0 <= j < |effects| ==> NoAge(effects[j])
      modifies this, nodes
      ensures Valid()
      ensures called == Calls(NodeActions(ns))
      ensures Current() == QueueRun(old(Current()), Requests(NodeActions(ns), effects))
      ensures Grown(old(nodes), nodes)
    {
      hide QueueStep, Values, QueueRun, Calls, Requests, Linked, NodeActions;
      ghost var start, actions := Current(), NodeActions(ns);
      called := [];
      var expQ := first;
      var j := 0;
      NothingCalled(start, actions, effects);
      while expQ != null
        invariant Valid() && Linked(ns)
        invariant j <= |ns| && expQ == NodeAt(ns, j)
        invariant Apart(ns, nodes)
        invariant Grown(old(nodes), nodes)
        invariant called == Calls(actions[..j])
        invariant Current() == QueueRun(start, Requests(actions[..j], effects))
        decreases |ns| - j
      {
        NextNode(ns, j);
        OneMoreCall(start, actions, effects, j);
        ActionAt(ns, j);
        if expQ.action.Function? {
          called := called + [expQ.action.data];
          if j < |effects| {
            Perform(effects[j]);
          }
        }
        expQ := expQ.next;
        j := j + 1;
      }
      assert actions[..j] == actions;
    }

    /**
     Lets `elapsed` units pass: calls the functions of the expired timers in order, each of
     which may set and clear timers, and answers the data they were called with.
     */
    method Age(elapsed: int, effects: seq<seq<Op<Action<D>>>>) returns (called: seq<D>)
      requires Valid()
      requires forall j :: 0 <= j < |effects| ==> NoAge(effects[j])
      modifies this, nodes
      ensures Valid()
      ensures called == Calls(ActionsIn(Fired(old(Current()), Op.Age(elapsed))))
      ensures Current() == QueueRun(QueueStep(old(Current()), Op.Age(elapsed)),
                                    Requests(ActionsIn(Fired(old(Current()), Op.Age(elapsed))), effects))
      ensures Grown(old(nodes), nodes)
    {
      hide Values, QueueStep, QueueRun, Calls, Requests, Linked, Fired, ActionsIn, NodeActions, Passed;
      ghost var start := Current();
      AllDistinct(nodes);
      FiredActions(nodes, start, elapsed);
      var expQ: TimerNode?<Action<D>>;
      ghost var k: nat;
      expQ, k := Expire(elapsed);
      DisjointParts(old(nodes), k);
      called := CallExpired(expQ, old(nodes)[..k], effects);
    }

    /**
     Carries out a sequence of calls, and answers the data that functions were called with: on
     the list it is the run of `TimerRuns`, with the requests of the functions behind each ageing.
     */
    method Run(events: seq<Event<D>>) returns (called: seq<D>)
      requires Valid()
      requires forall i :: 0 <= i < |events| ==> IsCall(events[i])
      modifies this, nodes
      ensures Valid()
      ensures Current() == QueueRun(old(Current()), AllOps(old(Current()), events))
      ensures called == Calls(ActionsIn(AllFired(old(Current()), AllOps(old(Current()), events))))
      ensures Grown(old(nodes), nodes)
    {
      hide Values, QueueStep, QueueRun, Calls, Requests, Linked, Fired, AllFired, ActionsIn, OpsOf, AllOps;
      ghost var start := Current();
      called := [];
      NoEvents(start, events);
      for i := 0 to |events|
        invariant Valid()
        invariant Current() == QueueRun(start, AllOps(start, events[..i]))
        invariant called == Calls(ActionsIn(AllFired(start, AllOps(start, events[..i]))))
        invariant Grown(old(nodes), nodes)
      {
        OneMoreEvent(start, events, i);
        NoCalls<D>();
        OneEvent(Current(), events[i]);
        match events[i]
        case Request(SetTimer(delay, action)) =>
          var r := this.SetTimer(delay, action, true);
        case Request(ClearTimer(id)) =>
          this.ClearTimer(id);
        case Ageing(elapsed, effects) =>
          var more := this.Age(elapsed, effects);
          called := called + more;
      }
      assert events[..|events|] == events;
    }
  }

  ghost function NodeActions<T>(ns: seq<TimerNode<T>>): (r: seq<T>)
    ensures |r| == |ns|
  {
    seq(|ns|, i requires 0 <= i < |ns| => ns[i].action)
  }

  // ---------- lemmas for the loops ----------

  lemma ActionAt<T>(ns: seq<TimerNode<T>>, j: nat)
    requires j < |ns|
    ensures NodeActions(ns)[j] == ns[j].action
  {
  }

  lemma NothingCalled<D>(q: Queue<Action<D>>, actions: seq<Action<D>>, effects: seq<seq<Op<Action<D>>>>)
    ensures Calls(actions[..0]) == [] && QueueRun(q, Requests(actions[..0], effects)) == q
  {
  }

  lemma OneMoreCall<D>(q: Queue<Action<D>>, actions: seq<Action<D>>, effects: seq<seq<Op<Action<D>>>>, j: nat)
    requires j < |actions|
    ensures Calls(actions[..j + 1])
         == Calls(actions[..j]) + (if actions[j].Function? then [actions[j].data] else [])
    ensures QueueRun(q, Requests(actions[..j + 1], effects))
         == if actions[j].Function? && j < |effects|
            then QueueRun(QueueRun(q, Requests(actions[..j], effects)), effects[j])
            else QueueRun(q, Requests(actions[..j], effects))
  {
    hide QueueRun;
    assert actions[..j + 1][..j] == actions[..j];
    if actions[j].Function? && j < |effects| {
      RunConcat(q, Requests(actions[..j], effects), effects[j]);
    } else {
      assert Requests(actions[..j + 1], effects) == Requests(actions[..j], effects);
    }
  }

  lemma {:induction false} RunConcat<T>(q: Queue<T>, a: seq<Op<T>>, b: seq<Op<T>>)
    ensures QueueRun(q, a + b) == QueueRun(QueueRun(q, a), b)
    decreases a
  {
    hide QueueStep;
    if a == [] {
      assert a + b == b;
    } else {
      assert (a + b)[1..] == a[1..] + b;
      RunConcat(QueueStep(q, a[0]), a[1..], b);
    }
  }

  // ---------- what calls and requests are ----------

  /** The calls of two lists of actions, one after the other, and of single actions. */
  lemma CallsMeaning<D>(a: seq<Action<D>>, b: seq<Action<D>>, d: D)
    ensures Calls(a + b) == Calls(a) + Calls(b)
    ensures Calls<D>([]) == [] && Calls([Action<D>.NoFunction]) == [] && Calls([Function(d)]) == [d]
  {
    CallsConcat(a, b);
    assert [Function(d)][..0] == [] && [Action<D>.NoFunction][..0] == [];
  }

  /** The requests of two lists of actions, one after the other, and of single actions. */
  lemma RequestsMeaning<D>(a: seq<Action<D>>, b: seq<Action<D>>, e: seq<seq<Op<Action<D>>>>,
                           f: seq<seq<Op<Action<D>>>>, d: D, ops: seq<Op<Action<D>>>)
    requires |e| == |a|
    ensures Requests(a + b, e + f) == Requests(a, e) + Requests(b, f)
    ensures Requests([], f) == [] && Requests([Action<D>.NoFunction], [ops] + f) == []
    ensures Requests([Function(d)], [ops] + f) == ops && Requests([Function(d)], []) == []
  {
    RequestsConcat(a, b, e, f);
    assert [Function(d)][..0] == [] && [Action<D>.NoFunction][..0] == [];
  }

  lemma {:induction false} RequestsConcat<D>(a: seq<Action<D>>, b: seq<Action<D>>, e: seq<seq<Op<Action<D>>>>,
                                             f: seq<seq<Op<Action<D>>>>)
    requires |e| == |a|
    ensures Requests(a + b, e + f) == Requests(a, e) + Requests(b, f)
    decreases b
  {
    hide Requests;
    if b == [] {
      assert a + b == a;
      MoreEffects(a, e, f);
      NoRequests(f);
    } else {
      var last := |b| - 1;
      assert a + b == a + b[..last] + [b[last]] && b == b[..last] + [b[last]];
      RequestsSnoc(a + b[..last], b[last], e + f);
      RequestsSnoc(b[..last], b[last], f);
      RequestsConcat(a, b[..last], e, f);
    }
  }

  lemma NoRequests<D>(f: seq<seq<Op<Action<D>>>>)
    ensures Requests([], f) == []
  {
  }

  lemma RequestsSnoc<D>(a: seq<Action<D>>, x: Action<D>, e: seq<seq<Op<Action<D>>>>)
    ensures Requests(a + [x], e) == Requests(a, e) + (if x.Function? && |a| < |e| then e[|a|] else [])
  {
    var s := a + [x];
    assert s[..|s| - 1] == a && s[|s| - 1] == x;
  }

  /** Effects beyond the number of actions are not used. */
  lemma {:induction false} MoreEffects<D>(a: seq<Action<D>>, e: seq<seq<Op<Action<D>>>>, f: seq<seq<Op<Action<D>>>>)
    requires |a| <= |e|
    ensures Requests(a, e + f) == Requests(a, e)
    decreases a
  {
    if a != [] {
      MoreEffects(a[..|a| - 1], e, f);
    }
  }

  /** The operations of two sequences of calls, one after the other, and of single calls. */
  lemma AllOpsMeaning<D>(q: Queue<Action<D>>, a: seq<Event<D>>, b: seq<Event<D>>, op: Op<Action<D>>,
                         elapsed: int, effects: seq<seq<Op<Action<D>>>>)
    ensures AllOps(q, a + b) == AllOps(q, a) + AllOps(QueueRun(q, AllOps(q, a)), b)
    ensures AllOps(q, [Request(op)]) == [op]
    ensures AllOps(q, [Ageing(elapsed, effects)])
         == [Op.Age(elapsed)] + Requests(ActionsIn(Fired(q, Op.Age(elapsed))), effects)
  {
    hide AllOps, QueueRun, Fired, Requests, ActionsIn;
    AllOpsConcat(q, a, b);
    OneCall(q, Request(op));
    OneCall(q, Ageing(elapsed, effects));
  }

  lemma {:induction false} AllOpsConcat<D>(q: Queue<Action<D>>, a: seq<Event<D>>, b: seq<Event<D>>)
    ensures AllOps(q, a + b) == AllOps(q, a) + AllOps(QueueRun(q, AllOps(q, a)), b)
    decreases a
  {
    hide OpsOf, QueueRun;
    if a == [] {
      assert a + b == b;
      NoOps(q);
    } else {
      var first := OpsOf(q, a[0]);
      assert (a + b)[1..] == a[1..] + b;
      AllOpsConcat(QueueRun(q, first), a[1..], b);
      RunConcat(q, first, AllOps(QueueRun(q, first), a[1..]));
    }
  }

  lemma OneCall<D>(q: Queue<Action<D>>, e: Event<D>)
    ensures AllOps(q, [e]) == OpsOf(q, e)
  {
    hide QueueRun, OpsOf;
  }

  // ---------- sequences of calls ----------

  lemma {:induction false} FiredConcat<T>(q: Queue<T>, a: seq<Op<T>>, b: seq<Op<T>>)
    ensures AllFired(q, a + b) == AllFired(q, a) + AllFired(QueueRun(q, a), b)
    decreases a
  {
    hide QueueStep, Fired;
    if a == [] {
      assert a + b == b;
    } else {
      assert (a + b)[1..] == a[1..] + b;
      FiredConcat(QueueStep(q, a[0]), a[1..], b);
    }
  }

  lemma {:induction false} CallsConcat<D>(a: seq<Action<D>>, b: seq<Action<D>>)
    ensures Calls(a + b) == Calls(a) + Calls(b)
    decreases b
  {
    if b == [] {
      assert a + b == a;
    } else {
      assert (a + b)[..|a + b| - 1] == a + b[..|b| - 1];
      CallsConcat(a, b[..|b| - 1]);
    }
  }

  lemma CalledConcat<D>(a: seq<Timer<Action<D>>>, b: seq<Timer<Action<D>>>)
    ensures Calls(ActionsIn(a + b)) == Calls(ActionsIn(a)) + Calls(ActionsIn(b))
  {
    CallsConcat(ActionsIn(a), ActionsIn(b));
    assert ActionsIn(a + b) == ActionsIn(a) + ActionsIn(b);
  }

  /** Requests fire nothing. */
  lemma {:induction false} NothingFired<T>(q: Queue<T>, ops: seq<Op<T>>)
    requires NoAge(ops)
    ensures AllFired(q, ops) == []
    decreases ops
  {
    if ops != [] {
      NothingFired(QueueStep(q, ops[0]), ops[1..]);
    }
  }

  lemma {:induction false} RequestsDoNotAge<D>(actions: seq<Action<D>>, effects: seq<seq<Op<Action<D>>>>)
    requires forall j :: 0 <= j < |effects| ==> NoAge(effects[j])
    ensures NoAge(Requests(actions, effects))
    decreases actions
  {
    if actions != [] {
      RequestsDoNotAge(actions[..|actions| - 1], effects);
    }
  }

  /** One call, as operations of the list. */
  lemma OneEvent<D>(q: Queue<Action<D>>, e: Event<D>)
    requires IsCall(e)
    ensures e.Request? ==> QueueRun(q, OpsOf(q, e)) == QueueStep(q, e.op) && AllFired(q, OpsOf(q, e)) == []
    ensures e.Ageing? ==>
      var age := Op<Action<D>>.Age(e.elapsed);
      QueueRun(q, OpsOf(q, e)) == QueueRun(QueueStep(q, age), Requests(ActionsIn(Fired(q, age)), e.effects))
      && AllFired(q, OpsOf(q, e)) == Fired(q, age)
  {
    hide QueueStep, Fired, Requests, ActionsIn;
    match e
    case Request(op) =>
      OneOp(q, op);
      NothingElseFires(q, op);
    case Ageing(elapsed, effects) =>
      var requests := Requests(ActionsIn(Fired(q, Op.Age(elapsed))), effects);
      OneOp(q, Op.Age(elapsed));
      RunConcat(q, [Op.Age(elapsed)], requests);
      FiredConcat(q, [Op.Age(elapsed)], requests);
      RequestsDoNotAge(ActionsIn(Fired(q, Op.Age(elapsed))), effects);
      NothingFired(QueueStep(q, Op.Age(elapsed)), requests);
  }

  lemma OneOp<T>(q: Queue<T>, op: Op<T>)
    ensures QueueRun(q, [op]) == QueueStep(q, op) && AllFired(q, [op]) == Fired(q, op)
  {
    hide QueueStep, Fired;
  }

  lemma NoCalls<D>()
    ensures Calls(ActionsIn<Action<D>>([])) == []
  {
  }

  lemma NoEvents<D>(q: Queue<Action<D>>, events: seq<Event<D>>)
    ensures QueueRun(q, AllOps(q, events[..0])) == q
    ensures Calls(ActionsIn(AllFired(q, AllOps(q, events[..0])))) == []
  {
  }

  lemma {:induction false} AllOpsSnoc<D>(q: Queue<Action<D>>, events: seq<Event<D>>, i: nat)
    requires i < |events|
    ensures AllOps(q, events[..i + 1])
         == AllOps(q, events[..i]) + OpsOf(QueueRun(q, AllOps(q, events[..i])), events[i])
    decreases i
  {
    hide QueueRun, OpsOf;
    var first := OpsOf(q, events[0]);
    assert events[..i + 1][1..] == events[1..][..i];
    if i == 0 {
      NoOps(q);
    } else {
      assert events[..i][1..] == events[1..][..i - 1];
      AllOpsSnoc(QueueRun(q, first), events[1..], i - 1);
      RunConcat(q, first, AllOps(QueueRun(q, first), events[1..][..i - 1]));
    }
  }

  lemma NoOps<T>(q: Queue<T>)
    ensures QueueRun(q, []) == q
  {
  }

  lemma OneMoreEvent<D>(q: Queue<Action<D>>, events: seq<Event<D>>, i: nat)
    requires i < |events|
    ensures var q1 := QueueRun(q, AllOps(q, events[..i]));
            var ops := AllOps(q, events[..i + 1]);
            QueueRun(q, ops) == QueueRun(q1, OpsOf(q1, events[i]))
            && Calls(ActionsIn(AllFired(q, ops)))
            == Calls(ActionsIn(AllFired(q, AllOps(q, events[..i]))))
             + Calls(ActionsIn(AllFired(q1, OpsOf(q1, events[i]))))
  {
    hide QueueRun, OpsOf, AllOps, AllFired, Calls, ActionsIn;
    var front := AllOps(q, events[..i]);
    var back := OpsOf(QueueRun(q, front), events[i]);
    AllOpsSnoc(q, events, i);
    RunConcat(q, front, back);
    FiredConcat(q, front, back);
    CalledConcat(AllFired(q, front), AllFired(QueueRun(q, front), back));
  }

  // ---------- clearing a timer that has expired ----------

  /**
   A function called by an ageing clears a pending timer.  That timer still fires exactly when
   the time it had left before was used up, and then its own function is called.
   */
  lemma ClearedByFunction<D>(q: Queue<Action<D>>, w: World<Action<D>>, elapsed: int,
                             effects: seq<seq<Op<Action<D>>>>, ops: seq<Op<Action<D>>>, id: int)
    requires Represents(q, w) && id in w.pending
    requires IsCall(Ageing(elapsed, effects)) && ClearTimer(id) in OpsOf(q, Ageing(elapsed, effects))
    ensures id in FiredIds(q, OpsOf(q, Ageing(elapsed, effects)) + ops) <==> Left(q, id) <= elapsed
    ensures Left(q, id) <= elapsed && w.pending[id].action.Function? ==>
      w.pending[id].action.data in Calls(ActionsIn(Fired(q, Op.Age(elapsed))))
  {
    hide Represents, FiredIds, Left, Fired, ActionsIn, Requests, Calls, FiresDue;
    var requests := Requests(ActionsIn(Fired(q, Op.Age(elapsed))), effects);
    RequestsDoNotAge(ActionsIn(Fired(q, Op.Age(elapsed))), effects);
    ClearedWhileAgeing(q, w, elapsed, requests, ops, id);
    assert OpsOf(q, Ageing(elapsed, effects)) + ops == [Op.Age(elapsed)] + (requests + ops);
    if Left(q, id) <= elapsed && w.pending[id].action.Function? {
      LeftMeaning(q, w, id);
      StepRefines(q, w, Op.Age(elapsed));
      DueIsCalled(Fired(q, Op.Age(elapsed)), w, w.now + elapsed, id);
    }
  }

  /** Timers 1 and 2 expire together; the function of 1 clears 2, and that of 2 is called all the same. */
  lemma ClearedTimerIsCalled()
    ensures var q := QueueRun(EmptyQueue(), [SetTimer(1, Function(10)), SetTimer(1, Function(20))]);
            var fired := Fired(q, Op.Age(1));
            Requests(ActionsIn(fired), [[ClearTimer(2)]]) == [Op<Action<int>>.ClearTimer(2)]
            && Ids(fired) == [1, 2] && Calls(ActionsIn(fired)) == [10, 20]
  {
    var a, b := Function(10), Function(20);
    SetFirst(a);
    SetSecond(a, b);
    FiresBoth(a, b);
    hide QueueStep, Fired;
    TwoSteps(EmptyQueue(), SetTimer(1, a), SetTimer(1, b));
    TwoCalls(10, 20, [ClearTimer(2)]);
  }

  lemma SetFirst<T>(a: T)
    ensures QueueStep(EmptyQueue(), SetTimer(1, a)) == Queue([Entry(1, a, 1)], 1)
  {
  }

  lemma SetSecond<T>(a: T, b: T)
    ensures QueueStep(Queue([Entry(1, a, 1)], 1), SetTimer(1, b)) == Queue([Entry(1, a, 1), Entry(2, b, 0)], 2)
  {
    var es := [Entry(1, a, 1)];
    assert es[1..] == [] && es[..1] == es;
    assert Passed(es, 1) == 1 && TotalTime(es) == 1;
  }

  lemma FiresBoth<T>(a: T, b: T)
    ensures Fired(Queue([Entry(1, a, 1), Entry(2, b, 0)], 2), Op.Age(1)) == [Timer(1, a, 1), Timer(2, b, 1)]
  {
    var es := [Entry(1, a, 1), Entry(2, b, 0)];
    assert es[1..] == [Entry(2, b, 0)] && es[1..][1..] == [];
    assert Passed(es[1..], 0) == 1;
    assert Remaining(es[1..], 1) == [Timer(2, b, 1)];
  }

  lemma TwoSteps<T>(q: Queue<T>, op: Op<T>, op': Op<T>)
    ensures QueueRun(q, [op, op']) == QueueStep(QueueStep(q, op), op')
  {
    assert [op, op'][1..] == [op'];
    OneOp(QueueStep(q, op), op');
  }

  lemma TwoCalls<D>(d: D, d': D, requests: seq<Op<Action<D>>>)
    ensures Calls([Function(d), Function(d')]) == [d, d']
    ensures Requests([Function(d), Function(d')], [requests]) == requests
  {
    var actions := [Function(d), Function(d')];
    assert actions[..1] == [Function(d)] && actions[..1][..0] == [];
    assert Calls(actions[..1]) == [d];
    assert Requests(actions[..1], [requests]) == requests;
  }

  lemma DueIsCalled<D>(fired: seq<Timer<Action<D>>>, w: World<Action<D>>, until: int, id: int)
    requires FiresDue(fired, w, until) && id in w.pending && w.pending[id].at <= until
    requires w.pending[id].action.Function?
    ensures w.pending[id].action.data in Calls(ActionsIn(fired))
  {
    hide Calls;
    assert HasId(fired, id);
    var i :| 0 <= i < |fired| && fired[i].id == id;
    assert Agrees(w, fired[i]);
    assert ActionsIn(fired)[i] == w.pending[id].action;
    FunctionIsCalled(ActionsIn(fired), i);
  }

  lemma {:induction false} FunctionIsCalled<D>(actions: seq<Action<D>>, i: nat)
    requires i < |actions| && actions[i].Function?
    ensures actions[i].data in Calls(actions)
    decreases actions
  {
    if i < |actions| - 1 {
      FunctionIsCalled(actions[..|actions| - 1], i);
    }
  }

  lemma RunStep<T>(q: Queue<T>, ops: seq<Op<T>>, i: nat)
    requires i < |ops|
    ensures QueueRun(q, ops[i..]) == QueueRun(QueueStep(q, ops[i]), ops[i + 1..])
  {
    assert ops[i..][1..] == ops[i + 1..];
  }

  lemma RunNothing<T>(q: Queue<T>, ops: seq<Op<T>>)
    ensures QueueRun(q, ops[|ops|..]) == q
  {
  }

  /** The expired timers of the list model are the first nodes of the list. */
  lemma FiredActions<T>(ns: seq<TimerNode<T>>, q: Queue<T>, elapsed: int)
    requires q.entries == Values(ns)
    ensures Passed(q.entries, elapsed) <= |ns|
    ensures ActionsIn(Fired(q, Op.Age(elapsed))) == NodeActions(ns[..Passed(q.entries, elapsed)])
  {
    hide Passed, Remaining, Values;
    RemainingSame(q.entries, 0);
    ActionsOf(ns);
  }

  lemma AllDistinct<T>(ns: seq<TimerNode<T>>)
    requires Linked(ns)
    ensures Distinct(ns)
  {
  }

  lemma DisjointParts<T>(ns: seq<TimerNode<T>>, k: nat)
    requires Distinct(ns) && k <= |ns|
    ensures Apart(ns[..k], ns[k..])
  {
  }

  lemma RemovedValues<T>(ns: seq<TimerNode<T>>, k: nat)
    requires k < |ns|
    ensures Values(ns[..k] + ns[k + 1..]) == Values(ns)[..k] + Values(ns)[k + 1..]
  {
    hide Values;
    ValuesSplit(ns, k);
    ValuesSplit(ns, k + 1);
    ValuesConcat(ns[..k], ns[k + 1..]);
  }

  lemma RemovedFirst<T>(es: seq<Entry<T>>, k: nat)
    requires k < |es|
    ensures var fs := es[..k] + es[k + 1..];
            es[..k] + Deduct(es[k + 1..], -es[k].time)
            == if k == |fs| then fs else fs[k := fs[k].(time := fs[k].time + es[k].time)]
  {
  }

  lemma DeductIsUpdate<T>(fs: seq<Entry<T>>, e: int)
    requires fs != []
    ensures Deduct(fs, e) == fs[0 := fs[0].(time := fs[0].time - e)]
  {
  }

  /** The list after ageing, made from the nodes that have not expired. */
  lemma AgedFirst<T>(es: seq<Entry<T>>, k: nat, elapsed: int)
    requires k == Passed(es, elapsed)
    ensures AgedEntries(es, elapsed) == Deduct(es[k..], elapsed - TotalTime(es[..k]))
    ensures k == |es| ==> AgedEntries(es, elapsed) == es[k..]
  {
    hide Passed, TotalTime;
  }

  lemma ClearedQueue<T>(q: Queue<T>, id: int)
    ensures QueueStep(q, Op.ClearTimer(id))
         == if id == 0 || id == -1 then q else Queue(RemoveEntry(q.entries, id), q.lastId)
  {
  }

  lemma AgedQueue<T>(q: Queue<T>, elapsed: int)
    ensures QueueStep(q, Op.Age(elapsed)) == Queue(AgedEntries(q.entries, elapsed), q.lastId)
  {
  }

  lemma LeftIsTotal<T>(es: seq<Entry<T>>, k: nat)
    requires k < |es|
    ensures Remaining(es, 0)[k].left == TotalTime(es[..k + 1])
  {
    RemainingSplit(es, k);
    TotalSnoc(es, k);
    var ts := Remaining(es, 0);
    assert ts[k] == ts[k..][0];
    assert es[k..][0] == es[k];
  }

  lemma NextNode<T>(ns: seq<TimerNode<T>>, k: nat)
    requires Linked(ns) && k < |ns|
    ensures ns[k].next == NodeAt(ns, k + 1)
    ensures Values(ns)[k] == ns[k].Value()
  {
    assert LinkedAt(ns, k);
    ValueAt(ns, k);
  }

  lemma FindNext<T>(es: seq<Entry<T>>, k: nat, id: int)
    requires k <= Find(es, id)
    ensures k < |es| ==> (Find(es, id) == k <==> es[k].id == id)
    ensures k == |es| ==> RemoveEntry(es, id) == es
    ensures Find(es, id) == k && k < |es| ==> RemoveEntry(es, id) == es[..k] + Deduct(es[k + 1..], -es[k].time)
  {
    hide Deduct;
  }

  /** The nodes from some position on form a list of their own. */
  lemma TailOfList<T>(ns: seq<TimerNode<T>>, k: nat)
    requires Linked(ns) && k <= |ns|
    ensures Linked(ns[k..]) && Distinct(ns[k..]) && NodeAt(ns[k..], 0) == NodeAt(ns, k)
  {
    var t := ns[k..];
    forall i | 0 <= i < |t|
      ensures LinkedAt(t, i)
    {
      assert LinkedAt(ns, k + i);
    }
  }

  function Inserted<T>(es: seq<Entry<T>>, k: nat, n: Entry<T>): seq<Entry<T>>
    requires k <= |es|
  {
    es[..k] + [n] + es[k..]
  }

  lemma InsertedValues<T>(ns: seq<TimerNode<T>>, node: TimerNode<T>, k: nat)
    requires k <= |ns|
    ensures Values(ns[..k] + [node] + ns[k..]) == Inserted(Values(ns), k, node.Value())
  {
    hide Values;
    ValuesSplit(ns, k);
    ValuesConcat(ns[..k] + [node], ns[k..]);
    ValuesConcat(ns[..k], [node]);
    ValueAt([node], 0);
    assert Values([node]) == [node.Value()];
  }

  lemma {:induction false} TotalConcat<T>(es: seq<Entry<T>>, fs: seq<Entry<T>>)
    ensures TotalTime(es + fs) == TotalTime(es) + TotalTime(fs)
    decreases es
  {
    if es == [] {
      assert es + fs == fs;
    } else {
      assert (es + fs)[1..] == es[1..] + fs;
      TotalConcat(es[1..], fs);
    }
  }

  lemma TotalNone<T>(es: seq<Entry<T>>)
    ensures TotalTime(es[..0]) == 0 && es[0..] == es
  {
  }

  lemma TotalSnoc<T>(es: seq<Entry<T>>, k: nat)
    requires k < |es|
    ensures TotalTime(es[..k + 1]) == TotalTime(es[..k]) + es[k].time
  {
    assert es[..k + 1] == es[..k] + [es[k]];
    TotalConcat(es[..k], [es[k]]);
    assert TotalTime([es[k]]) == es[k].time;
  }

  /** One step of the search for the first entry that is not passed. */
  lemma PassedNext<T>(es: seq<Entry<T>>, k: nat, d: int)
    requires k < |es|
    ensures Passed(es[k..], d) == if d < es[k].time then 0 else 1 + Passed(es[k + 1..], d - es[k].time)
    ensures TotalTime(es[..k + 1]) == TotalTime(es[..k]) + es[k].time
  {
    TotalSnoc(es, k);
    assert es[k..][1..] == es[k + 1..];
  }

  lemma PassedAll<T>(es: seq<Entry<T>>, k: nat, d: int)
    requires k == |es|
    ensures Passed(es[k..], d) == 0
  {
  }

  lemma DeductFirst<T>(es: seq<Entry<T>>, k: nat, n: Entry<T>)
    requires k <= |es|
    ensures var fs := Inserted(es, k, n);
            |fs| == |es| + 1 && es[..k] + ([n] + Deduct(es[k..], n.time))
            == if k == |es| then fs else fs[k + 1 := fs[k + 1].(time := fs[k + 1].time - n.time)]
  {
  }

  lemma InsertedEntry<T>(es: seq<Entry<T>>, k: nat, id: int, action: T, delay: int)
    requires k == Passed(es, delay)
    ensures var n := Entry(id, action, delay - TotalTime(es[..k]));
            InsertEntry(es, id, action, delay) == es[..k] + ([n] + Deduct(es[k..], n.time))
  {
    hide Passed, TotalTime, Deduct;
  }
}
