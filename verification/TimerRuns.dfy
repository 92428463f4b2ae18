/**
 The timer queue over whole runs.

 `World` is the simple model: a clock, and for each pending timer the moment at which it is
 due.  The queue of callout.c is shown to represent it through every sequence of operations:
 the list is always the pending timers in the order in which they are due, and in the order
 in which they were set when they are due together.
 */
module TimerRuns {
  import opened TimerLists

  datatype Op<T> = SetTimer(delay: int, action: T) | ClearTimer(id: int) | Age(elapsed: int)

  // ---------- the queue ----------

  /** The static variables of callout.c: the list and the last identifier given out. */
  datatype Queue<T> = Queue(entries: seq<Entry<T>>, lastId: int)

  function QueueStep<T>(q: Queue<T>, op: Op<T>): Queue<T> {
    match op
    case SetTimer(delay, action) =>
      Queue(InsertEntry(q.entries, q.lastId + 1, action, delay), q.lastId + 1)
    case ClearTimer(id) =>
      if id == 0 || id == -1 then q else Queue(RemoveEntry(q.entries, id), q.lastId)
    case Age(elapsed) =>
      Queue(AgedEntries(q.entries, elapsed), q.lastId)
  }

  /** The timers that an operation lets expire, in the order of their calls. */
  function Fired<T>(q: Queue<T>, op: Op<T>): seq<Timer<T>> {
    match op
    case Age(elapsed) => Remaining(q.entries, 0)[..Passed(q.entries, elapsed)]
    case _ => []
  }

  /** What `timer_leftTimer` answers. */
  function Left<T>(q: Queue<T>, id: int): int {
    var k := Find(q.entries, id);
    if id == 0 || k == |q.entries| then -1 else Remaining(q.entries, 0)[k].left
  }

  /** What `timer_nextTimer` answers. */
  function NextWakeup<T>(q: Queue<T>): int {
    if q.entries == [] then -1 else if q.entries[0].time < 0 then 0 else q.entries[0].time
  }

  function QueueRun<T>(q: Queue<T>, ops: seq<Op<T>>): Queue<T>
    decreases ops
  {
    if ops == [] then q else QueueRun(QueueStep(q, ops[0]), ops[1..])
  }

  // ---------- the simple model ----------

  datatype Due<T> = Due(action: T, at: int)

  datatype World<T> = World(now: int, lastId: int, pending: map<int, Due<T>>)

  function WorldStep<T>(w: World<T>, op: Op<T>): World<T> {
    match op
    case SetTimer(delay, action) =>
      w.(lastId := w.lastId + 1, pending := w.pending[w.lastId + 1 := Due(action, w.now + delay)])
    case ClearTimer(id) =>
      w.(pending := w.pending - {id})
    case Age(elapsed) =>
      w.(now := w.now + elapsed,
         pending := map id | id in w.pending && w.pending[id].at > w.now + elapsed :: w.pending[id])
  }

  // ---------- representation ----------

  ghost predicate Before<T>(s: Timer<T>, t: Timer<T>) {
    s.left < t.left || (s.left == t.left && s.id < t.id)
  }

  ghost predicate Ordered<T>(ts: seq<Timer<T>>) {
    forall i, j :: 0 <= i < j < |ts| ==> Before(ts[i], ts[j])
  }

  /** A timer of the list is a pending timer of the world. */
  ghost predicate Agrees<T>(w: World<T>, t: Timer<T>) {
    1 <= t.id <= w.lastId && t.id in w.pending && w.pending[t.id] == Due(t.action, w.now + t.left)
  }

  ghost predicate HasId<T>(ts: seq<Timer<T>>, id: int) {
    exists i :: 0 <= i < |ts| && ts[i].id == id
  }

  /** The list holds the pending timers of the world, in order. */
  ghost predicate Lists<T>(ts: seq<Timer<T>>, w: World<T>) {
    && Ordered(ts)
    && (forall i :: 0 <= i < |ts| ==> Agrees(w, ts[i]))
    && (forall id :: id in w.pending ==> HasId(ts, id))
  }

  ghost predicate Represents<T>(q: Queue<T>, w: World<T>) {
    q.lastId == w.lastId && 0 <= w.lastId && Lists(Remaining(q.entries, 0), w)
  }

  /** What an `Age` operation fires: the timers that have become due, in order. */
  ghost predicate FiresDue<T>(ts: seq<Timer<T>>, w: World<T>, until: int) {
    && Ordered(ts)
    && (forall i :: 0 <= i < |ts| ==> Agrees(w, ts[i]) && w.now + ts[i].left <= until)
    && (forall id :: id in w.pending && w.pending[id].at <= until ==> HasId(ts, id))
  }

  // ---------- one step ----------

  lemma SetKeepsLists<T>(ts: seq<Timer<T>>, w: World<T>, k: nat, delay: int, action: T)
    requires Lists(ts, w) && k <= |ts| && 0 <= w.lastId
    requires (forall i :: 0 <= i < k ==> ts[i].left <= delay) && (k < |ts| ==> ts[k].left > delay)
    ensures Lists(ts[..k] + [Timer(w.lastId + 1, action, delay)] + ts[k..], WorldStep(w, SetTimer(delay, action)))
  {
    var n := Timer(w.lastId + 1, action, delay);
    var r, w' := ts[..k] + [n] + ts[k..], WorldStep(w, SetTimer(delay, action));
    forall i | 0 <= i < |r|
      ensures Agrees(w', r[i])
      ensures i < k ==> r[i] == ts[i]
      ensures i > k ==> r[i] == ts[i - 1]
    {
      assert r[i] == if i < k then ts[i] else if i == k then n else ts[i - 1];
    }
    forall i, j | 0 <= i < j < |r|
      ensures Before(r[i], r[j])
    {
      if j == k {
        assert Agrees(w, ts[i]);
      } else if i == k {
        assert k < j - 1 ==> Before(ts[k], ts[j - 1]);
      }
    }
    forall id | id in w'.pending
      ensures HasId(r, id)
    {
      if id == n.id {
        assert r[k].id == id;
      } else {
        var i :| 0 <= i < |ts| && ts[i].id == id;
        assert r[if i < k then i else i + 1].id == id;
      }
    }
  }

  lemma DistinctIds<T>(ts: seq<Timer<T>>, w: World<T>)
    requires Lists(ts, w)
    ensures forall i, j :: 0 <= i < j < |ts| ==> ts[i].id != ts[j].id
  {
    forall i, j | 0 <= i < j < |ts|
      ensures ts[i].id != ts[j].id
    {
      assert Before(ts[i], ts[j]) && Agrees(w, ts[i]) && Agrees(w, ts[j]);
    }
  }

  lemma ClearKeepsLists<T>(ts: seq<Timer<T>>, w: World<T>, k: nat, id: int)
    requires Lists(ts, w) && k <= |ts|
    requires (forall i :: 0 <= i < k ==> ts[i].id != id) && (k < |ts| ==> ts[k].id == id)
    ensures Lists(if k == |ts| then ts else ts[..k] + ts[k + 1..], WorldStep(w, ClearTimer(id)))
  {
    var r, w' := if k == |ts| then ts else ts[..k] + ts[k + 1..], WorldStep(w, ClearTimer(id));
    DistinctIds(ts, w);
    WithoutOne(ts, k, r);
    hide Ordered, WorldStep, Agrees;
    forall i | 0 <= i < |r|
      ensures Agrees(w', r[i])
    {
      AgreesAfterClear(w, ts[if i < k then i else i + 1], id);
    }
    forall d | d in w'.pending
      ensures HasId(r, d)
    {
      StillPending(w, id, d);
      assert HasId(ts, d);
      var i :| 0 <= i < |ts| && ts[i].id == d;
      assert r[if i < k then i else i - 1].id == d;
    }
  }

  lemma AgreesAfterClear<T>(w: World<T>, t: Timer<T>, id: int)
    requires Agrees(w, t) && t.id != id
    ensures Agrees(WorldStep(w, ClearTimer(id)), t)
  {
  }

  lemma StillPending<T>(w: World<T>, id: int, d: int)
    requires d in WorldStep(w, ClearTimer(id)).pending
    ensures d in w.pending && d != id
  {
  }

  lemma WithoutOne<T>(ts: seq<Timer<T>>, k: nat, r: seq<Timer<T>>)
    requires Ordered(ts) && k <= |ts|
    requires r == if k == |ts| then ts else ts[..k] + ts[k + 1..]
    ensures |r| == if k == |ts| then |ts| else |ts| - 1
    ensures forall i :: 0 <= i < |r| ==> r[i] == ts[if i < k then i else i + 1]
    ensures Ordered(r)
  {
    hide Before;
    assert forall i :: 0 <= i < |r| ==> r[i] == ts[if i < k then i else i + 1];
    forall i, j | 0 <= i < j < |r|
      ensures Before(r[i], r[j])
    {
      assert Before(ts[if i < k then i else i + 1], ts[if j < k then j else j + 1]);
    }
  }

  lemma AgeKeepsLists<T>(ts: seq<Timer<T>>, w: World<T>, k: nat, elapsed: int)
    requires Lists(ts, w) && k <= |ts|
    requires (forall i :: 0 <= i < k ==> ts[i].left <= elapsed) && (k < |ts| ==> ts[k].left > elapsed)
    ensures Lists(Shift(ts[k..], elapsed), WorldStep(w, Age(elapsed)))
    ensures FiresDue(ts[..k], w, w.now + elapsed)
  {
    var r, w' := Shift(ts[k..], elapsed), WorldStep(w, Age(elapsed));
    forall i | k <= i < |ts|
      ensures ts[i].left > elapsed
    {
      assert i > k ==> Before(ts[k], ts[i]);
    }
    forall i | 0 <= i < |r|
      ensures Agrees(w', r[i])
    {
      assert Agrees(w, ts[k + i]);
    }
    forall i, j | 0 <= i < j < |r|
      ensures Before(r[i], r[j])
    {
      assert Before(ts[k + i], ts[k + j]);
    }
    forall id | id in w.pending
      ensures w.pending[id].at > w'.now ==> HasId(r, id)
      ensures w.pending[id].at <= w'.now ==> HasId(ts[..k], id)
    {
      var i :| 0 <= i < |ts| && ts[i].id == id;
      assert Agrees(w, ts[i]);
      if i < k {
        assert ts[..k][i].id == id;
      } else {
        assert r[i - k].id == id;
      }
    }
    forall i | 0 <= i < k
      ensures Agrees(w, ts[..k][i])
    {
      assert Agrees(w, ts[i]);
    }
  }

  /** Every operation keeps the representation, and ageing fires exactly what has become due. */
  lemma StepRefines<T>(q: Queue<T>, w: World<T>, op: Op<T>)
    requires Represents(q, w)
    ensures Represents(QueueStep(q, op), WorldStep(w, op))
    ensures op.Age? ==> FiresDue(Fired(q, op), w, w.now + op.elapsed)
  {
    hide Lists, FiresDue, Remaining, InsertEntry, RemoveEntry, AgedEntries, Passed, Shift;
    var es := q.entries;
    match op
    case SetTimer(delay, action) =>
      InsertRefines(es, q.lastId + 1, action, delay);
      PassedMeaning(es, 0, delay);
      SetKeepsLists(Remaining(es, 0), w, Passed(es, delay), delay, action);
    case ClearTimer(id) =>
      RemainingSame(es, 0);
      if id == 0 || id == -1 {
        NoSuchTimer(Remaining(es, 0), w, id);
        assert w.pending - {id} == w.pending;
      } else {
        RemoveRefines(es, id);
        ClearKeepsLists(Remaining(es, 0), w, Find(es, id), id);
      }
    case Age(elapsed) =>
      AgeRefines(es, elapsed);
      PassedMeaning(es, 0, elapsed);
      AgeKeepsLists(Remaining(es, 0), w, Passed(es, elapsed), elapsed);
  }

  /**
   What ageing fires, timer by timer: every pending timer that is due by then, with its own
   action, those due earlier first, and of those due together the one that was set first.
   */
  lemma FiringMeaning<T>(q: Queue<T>, w: World<T>, elapsed: int)
    requires Represents(q, w)
    ensures var fired := Fired(q, Age(elapsed));
            && (forall id :: HasId(fired, id) <==> id in w.pending && w.pending[id].at <= w.now + elapsed)
            && (forall i :: 0 <= i < |fired| ==>
                  fired[i].id in w.pending && w.pending[fired[i].id].action == fired[i].action)
            && (forall i, j :: 0 <= i < j < |fired| ==>
                  var (a, b) := (w.pending[fired[i].id].at, w.pending[fired[j].id].at);
                  a < b || (a == b && fired[i].id < fired[j].id))
  {
    var fired := Fired(q, Age(elapsed));
    StepRefines(q, w, Age(elapsed));
    hide Fired, Represents, WorldStep;
    forall i | 0 <= i < |fired|
      ensures fired[i].id in w.pending && w.pending[fired[i].id] == Due(fired[i].action, w.now + fired[i].left)
    {
      assert Agrees(w, fired[i]);
    }
    forall i, j | 0 <= i < j < |fired|
      ensures fired[i].left < fired[j].left || (fired[i].left == fired[j].left && fired[i].id < fired[j].id)
    {
      assert Before(fired[i], fired[j]);
    }
  }

  lemma NoSuchTimer<T>(ts: seq<Timer<T>>, w: World<T>, id: int)
    requires Lists(ts, w) && id <= 0
    ensures id !in w.pending
  {
    forall i | 0 <= i < |ts|
      ensures ts[i].id > 0
    {
      assert Agrees(w, ts[i]);
    }
  }

  // ---------- queries ----------

  /** A pending timer has its due time minus the clock left; any other identifier gets -1. */
  lemma LeftMeaning<T>(q: Queue<T>, w: World<T>, id: int)
    requires Represents(q, w)
    ensures Left(q, id) == if id in w.pending then w.pending[id].at - w.now else -1
  {
    hide Remaining;
    var ts, k := Remaining(q.entries, 0), Find(q.entries, id);
    RemainingSame(q.entries, 0);
    if id == 0 {
      NoSuchTimer(ts, w, id);
    } else if k < |ts| {
      assert Agrees(w, ts[k]);
    } else {
      assert !HasId(ts, id);
    }
  }

  /** Every identifier in the list has been given out. */
  ghost predicate IdsGivenOut<T>(q: Queue<T>) {
    0 <= q.lastId && forall i :: 0 <= i < |q.entries| ==> 1 <= q.entries[i].id <= q.lastId
  }

  lemma RepresentedIds<T>(q: Queue<T>, w: World<T>)
    requires Represents(q, w)
    ensures IdsGivenOut(q)
  {
    RemainingSame(q.entries, 0);
    forall i | 0 <= i < |q.entries|
      ensures 1 <= q.entries[i].id <= q.lastId
    {
      assert Agrees(w, Remaining(q.entries, 0)[i]);
    }
  }

  /** The identifier that setting a timer gives out is new, and names the timer that was set. */
  lemma NewIdentifier<T>(q: Queue<T>, delay: int, action: T)
    requires IdsGivenOut(q)
    ensures Left(q, q.lastId + 1) == -1
    ensures Left(QueueStep(q, SetTimer(delay, action)), q.lastId + 1) == delay
  {
    hide Remaining, InsertEntry, Passed;
    var es, q' := q.entries, QueueStep(q, SetTimer(delay, action));
    var k := Passed(es, delay);
    InsertRefines(es, q.lastId + 1, action, delay);
    RemainingSame(es, 0);
    RemainingSame(q'.entries, 0);
    assert Remaining(q'.entries, 0)[k] == Timer(q.lastId + 1, action, delay);
    assert Find(q'.entries, q.lastId + 1) == k;
  }

  /** No pending timer is due before `id`. */
  ghost predicate Earliest<T>(w: World<T>, id: int) {
    id in w.pending && forall d :: d in w.pending ==> w.pending[id].at <= w.pending[d].at
  }

  /**
   The next wake-up is the time until the earliest timer is due, or 0 if it is due already;
   -1 means that nothing is pending.
   */
  lemma NextMeaning<T>(q: Queue<T>, w: World<T>)
    requires Represents(q, w)
    ensures NextWakeup(q) == -1 <==> w.pending == map[]
    ensures w.pending != map[] ==> exists id :: Earliest(w, id)
    ensures forall id :: Earliest(w, id) ==>
      NextWakeup(q) == if w.pending[id].at <= w.now then 0 else w.pending[id].at - w.now
  {
    var ts := Remaining(q.entries, 0);
    if ts == [] {
      forall id
        ensures id !in w.pending
      {
        assert !HasId(ts, id);
      }
    } else {
      assert Agrees(w, ts[0]) && ts[0].left == q.entries[0].time;
      forall id | id in w.pending
        ensures w.pending[ts[0].id].at <= w.pending[id].at
      {
        var i :| 0 <= i < |ts| && ts[i].id == id;
        assert Agrees(w, ts[i]);
        assert i > 0 ==> Before(ts[0], ts[i]);
      }
      assert Earliest(w, ts[0].id);
    }
  }

  // ---------- whole runs ----------

  function EmptyQueue<T>(): Queue<T> { Queue([], 0) }

  function EmptyWorld<T>(): World<T> { World(0, 0, map[]) }

  function WorldRun<T>(w: World<T>, ops: seq<Op<T>>): World<T>
    decreases ops
  {
    if ops == [] then w else WorldRun(WorldStep(w, ops[0]), ops[1..])
  }

  lemma {:induction false} RunRefines<T>(q: Queue<T>, w: World<T>, ops: seq<Op<T>>)
    requires Represents(q, w)
    ensures Represents(QueueRun(q, ops), WorldRun(w, ops))
    decreases ops
  {
    if ops != [] {
      hide Represents, QueueStep, WorldStep;
      StepRefines(q, w, ops[0]);
      RunRefines(QueueStep(q, ops[0]), WorldStep(w, ops[0]), ops[1..]);
    }
  }

  /** From the empty queue, every run represents the same run of the simple model. */
  lemma EveryRunRefines<T>(ops: seq<Op<T>>)
    ensures Represents(QueueRun(EmptyQueue(), ops), WorldRun(EmptyWorld(), ops))
  {
    RunRefines(EmptyQueue<T>(), EmptyWorld<T>(), ops);
  }

  // ---------- the life of one timer ----------

  function Elapsed<T>(ops: seq<Op<T>>): int
    decreases ops
  {
    if ops == [] then 0 else (if ops[0].Age? then ops[0].elapsed else 0) + Elapsed(ops[1..])
  }

  ghost predicate NeverCleared<T>(ops: seq<Op<T>>, id: int) {
    forall i :: 0 <= i < |ops| ==> ops[i] != ClearTimer(id)
  }

  predicate NoAge<T>(ops: seq<Op<T>>) {
    forall i :: 0 <= i < |ops| ==> !ops[i].Age?
  }

  /** The operation at position `i` ages the queue, and `delay` units or more have passed after it. */
  ghost predicate DueAt<T>(ops: seq<Op<T>>, delay: int, i: int) {
    0 <= i < |ops| && ops[i].Age? && Elapsed(ops[..i + 1]) >= delay
  }

  ghost predicate DueUncleared<T>(ops: seq<Op<T>>, delay: int, id: int, i: int) {
    DueAt(ops, delay, i) && NeverCleared(ops[..i], id)
  }

  /** A timer with `delay` units left becomes due in the run. */
  ghost predicate ComesDue<T>(ops: seq<Op<T>>, delay: int) {
    exists i :: DueAt(ops, delay, i)
  }

  /** It does so before it is cleared. */
  ghost predicate DueBeforeCleared<T>(ops: seq<Op<T>>, delay: int, id: int) {
    exists i :: DueUncleared(ops, delay, id, i)
  }

  function TimeOf<T>(op: Op<T>): int {
    if op.Age? then op.elapsed else 0
  }

  lemma DueAtStep<T>(ops: seq<Op<T>>, delay: int, i: int)
    requires ops != []
    ensures DueAt(ops, delay, 0) <==> ops[0].Age? && ops[0].elapsed >= delay
    ensures i > 0 ==> (DueAt(ops, delay, i) <==> DueAt(ops[1..], delay - TimeOf(ops[0]), i - 1))
  {
    assert ops[..1] == [ops[0]] && Elapsed([ops[0]]) == TimeOf(ops[0]);
    if 0 < i < |ops| {
      assert ops[..i + 1][1..] == ops[1..][..i];
    }
  }

  lemma NeverClearedStep<T>(ops: seq<Op<T>>, id: int)
    requires ops != []
    ensures NeverCleared(ops, id) <==> ops[0] != ClearTimer(id) && NeverCleared(ops[1..], id)
  {
    var rest := ops[1..];
    assert forall i :: 0 <= i < |rest| ==> rest[i] == ops[i + 1];
    assert forall i :: 0 < i < |ops| ==> ops[i] == rest[i - 1];
  }

  lemma DueUnclearedStep<T>(ops: seq<Op<T>>, delay: int, id: int, i: int)
    requires ops != []
    ensures DueUncleared(ops, delay, id, 0) <==> ops[0].Age? && ops[0].elapsed >= delay
    ensures i > 0 ==>
      (DueUncleared(ops, delay, id, i)
       <==> ops[0] != ClearTimer(id) && DueUncleared(ops[1..], delay - TimeOf(ops[0]), id, i - 1))
  {
    DueAtStep(ops, delay, i);
    if 0 < i < |ops| {
      NeverClearedStep(ops[..i], id);
      assert ops[..i][1..] == ops[1..][..i - 1];
    }
  }

  lemma ComesDueStep<T>(ops: seq<Op<T>>, delay: int)
    requires ops != []
    ensures ComesDue(ops, delay)
      <==> (ops[0].Age? && ops[0].elapsed >= delay) || ComesDue(ops[1..], delay - TimeOf(ops[0]))
  {
    hide Elapsed, TimeOf;
    var rest, left := ops[1..], delay - TimeOf(ops[0]);
    DueAtStep(ops, delay, 0);
    if i :| DueAt(ops, delay, i) {
      DueAtStep(ops, delay, i);
    }
    if i :| DueAt(rest, left, i) {
      DueAtStep(ops, delay, i + 1);
    }
  }

  ghost predicate TimeGoesForward<T>(ops: seq<Op<T>>) {
    forall i :: 0 <= i < |ops| && ops[i].Age? ==> ops[i].elapsed >= 0
  }

  /** While time goes forward, only all the time that passes in the run matters. */
  lemma {:induction false} DueInForwardTime<T>(ops: seq<Op<T>>, delay: int)
    requires TimeGoesForward(ops)
    ensures Elapsed(ops) >= 0 && (NoAge(ops) ==> Elapsed(ops) == 0)
    ensures ComesDue(ops, delay) <==> !NoAge(ops) && Elapsed(ops) >= delay
    decreases ops
  {
    if ops != [] {
      hide ComesDue;
      var rest := ops[1..];
      assert forall i :: 0 <= i < |rest| ==> rest[i] == ops[i + 1];
      assert forall i :: 0 < i < |ops| ==> ops[i] == rest[i - 1];
      ComesDueStep(ops, delay);
      DueInForwardTime(rest, delay - TimeOf(ops[0]));
    }
  }

  lemma DueBeforeClearedStep<T>(ops: seq<Op<T>>, delay: int, id: int)
    requires ops != []
    ensures DueBeforeCleared(ops, delay, id)
      <==> ((ops[0].Age? && ops[0].elapsed >= delay)
            || (ops[0] != ClearTimer(id) && DueBeforeCleared(ops[1..], delay - TimeOf(ops[0]), id)))
  {
    hide Elapsed, TimeOf, NeverCleared;
    var rest, left := ops[1..], delay - TimeOf(ops[0]);
    DueUnclearedStep(ops, delay, id, 0);
    if i :| DueUncleared(ops, delay, id, i) {
      DueUnclearedStep(ops, delay, id, i);
    }
    if i :| DueUncleared(rest, left, id, i) {
      DueUnclearedStep(ops, delay, id, i + 1);
    }
  }

  lemma {:induction false} GoneForGood<T>(w: World<T>, ops: seq<Op<T>>, id: int)
    requires id <= w.lastId && id !in w.pending
    ensures id !in WorldRun(w, ops).pending
    decreases ops
  {
    if ops != [] {
      GoneForGood(WorldStep(w, ops[0]), ops[1..], id);
    }
  }

  lemma {:induction false} ClockOfRun<T>(w: World<T>, ops: seq<Op<T>>)
    ensures WorldRun(w, ops).now == w.now + Elapsed(ops)
    decreases ops
  {
    if ops != [] {
      ClockOfRun(WorldStep(w, ops[0]), ops[1..]);
    }
  }

  /** A timer stays pending, with the same due time, until it is cleared or due. */
  lemma {:induction false} PendingAfter<T>(w: World<T>, ops: seq<Op<T>>, id: int)
    requires id in w.pending && id <= w.lastId
    ensures id in WorldRun(w, ops).pending <==> NeverCleared(ops, id) && !ComesDue(ops, w.pending[id].at - w.now)
    ensures id in WorldRun(w, ops).pending ==> WorldRun(w, ops).pending[id] == w.pending[id]
    decreases ops
  {
    if ops != [] {
      hide ComesDue, NeverCleared;
      var rest, w1 := ops[1..], WorldStep(w, ops[0]);
      ComesDueStep(ops, w.pending[id].at - w.now);
      NeverClearedStep(ops, id);
      if id in w1.pending {
        PendingAfter(w1, rest, id);
      } else {
        GoneForGood(w1, rest, id);
      }
    }
  }

  /**
   A timer that is set after any history has its delay minus the time gone by left, until it
   is cleared or the delay is used up; then it is gone.
   */
  lemma TimerLifetime<T>(history: seq<Op<T>>, delay: int, action: T, ops: seq<Op<T>>)
    ensures var q := QueueRun(EmptyQueue(), history);
            var id := q.lastId + 1;
            Left(QueueRun(QueueStep(q, SetTimer(delay, action)), ops), id)
            == if NeverCleared(ops, id) && !ComesDue(ops, delay) then delay - Elapsed(ops) else -1
  {
    hide QueueStep, Represents, Left, ComesDue, NeverCleared;
    var q1, w1, id := NewTimer(history, delay, action);
    RunRefines(q1, w1, ops);
    PendingAfter(w1, ops, id);
    ClockOfRun(w1, ops);
    LeftMeaning(QueueRun(q1, ops), WorldRun(w1, ops), id);
  }

  /** A timer that has just been set is pending and due after its delay. */
  lemma NewTimer<T>(history: seq<Op<T>>, delay: int, action: T) returns (q1: Queue<T>, w1: World<T>, id: int)
    ensures q1 == QueueStep(QueueRun(EmptyQueue(), history), SetTimer(delay, action))
    ensures id == QueueRun(EmptyQueue<T>(), history).lastId + 1
    ensures Represents(q1, w1) && id in w1.pending && id == w1.lastId
    ensures w1.pending[id].at - w1.now == delay
  {
    hide QueueStep, Represents;
    var q, w := QueueRun(EmptyQueue(), history), WorldRun(EmptyWorld(), history);
    EveryRunRefines(history);
    SameIds(q, w);
    StepRefines(q, w, SetTimer(delay, action));
    q1, w1, id := QueueStep(q, SetTimer(delay, action)), WorldStep(w, SetTimer(delay, action)), q.lastId + 1;
  }

  lemma SameIds<T>(q: Queue<T>, w: World<T>)
    requires Represents(q, w)
    ensures q.lastId == w.lastId
  {
  }

  // ---------- firing ----------

  function Ids<T>(ts: seq<Timer<T>>): (ids: seq<int>)
    ensures |ids| == |ts|
  {
    seq(|ts|, i requires 0 <= i < |ts| => ts[i].id)
  }

  /** The timers that a run fires, in order. */
  function AllFired<T>(q: Queue<T>, ops: seq<Op<T>>): seq<Timer<T>>
    decreases ops
  {
    if ops == [] then [] else Fired(q, ops[0]) + AllFired(QueueStep(q, ops[0]), ops[1..])
  }

  function FiredIds<T>(q: Queue<T>, ops: seq<Op<T>>): seq<int> {
    Ids(AllFired(q, ops))
  }

  lemma FiredIdsParts<T>(q: Queue<T>, ops: seq<Op<T>>)
    requires ops != []
    ensures FiredIds(q, ops) == Ids(Fired(q, ops[0])) + FiredIds(QueueStep(q, ops[0]), ops[1..])
  {
    hide Fired, QueueStep;
  }

  lemma {:induction false} FiredFromPending<T>(q: Queue<T>, w: World<T>, ops: seq<Op<T>>)
    requires Represents(q, w)
    ensures forall i :: 0 <= i < |FiredIds(q, ops)| ==>
      FiredIds(q, ops)[i] in w.pending || FiredIds(q, ops)[i] > w.lastId
    ensures forall i, j :: 0 <= i < j < |FiredIds(q, ops)| ==> FiredIds(q, ops)[i] != FiredIds(q, ops)[j]
    decreases ops
  {
    hide Represents, Fired, QueueStep, WorldStep, FiredIds, FiresDue;
    if ops == [] {
      assert FiredIds(q, []) == [] by { NothingIsDue(q, 0, 0); }
    } else {
      var fired, q1, w1 := Fired(q, ops[0]), QueueStep(q, ops[0]), WorldStep(w, ops[0]);
      StepRefines(q, w, ops[0]);
      NothingElseFires(q, ops[0]);
      FiredFromPending(q1, w1, ops[1..]);
      FiredOnce(fired, w, ops[0]);
      FiredIdsParts(q, ops);
      StillNew(w, ops[0]);
    }
  }

  lemma StillNew<T>(w: World<T>, op: Op<T>)
    ensures WorldStep(w, op).lastId >= w.lastId && WorldStep(w, op).now == w.now + TimeOf(op)
    ensures forall id :: id in WorldStep(w, op).pending ==> id in w.pending || id > w.lastId
  {
  }

  /** What one operation fires was pending, is not pending any more, and is fired once. */
  lemma FiredOnce<T>(fired: seq<Timer<T>>, w: World<T>, op: Op<T>)
    requires if op.Age? then FiresDue(fired, w, w.now + op.elapsed) else fired == []
    ensures forall i :: 0 <= i < |fired| ==>
      fired[i].id in w.pending && fired[i].id <= w.lastId
      && fired[i].id !in WorldStep(w, op).pending && fired[i].id <= WorldStep(w, op).lastId
    ensures forall i, j :: 0 <= i < j < |fired| ==> fired[i].id != fired[j].id
  {
    forall i | 0 <= i < |fired|
      ensures fired[i].id in w.pending && fired[i].id <= w.lastId && fired[i].id !in WorldStep(w, op).pending
    {
      assert Agrees(w, fired[i]);
    }
    forall i, j | 0 <= i < j < |fired|
      ensures fired[i].id != fired[j].id
    {
      assert Before(fired[i], fired[j]) && Agrees(w, fired[i]) && Agrees(w, fired[j]);
    }
  }

  /** Over every run, no timer fires twice. */
  lemma NoTimerFiresTwice<T>(ops: seq<Op<T>>)
    ensures forall i, j :: 0 <= i < j < |FiredIds(EmptyQueue<T>(), ops)| ==>
      FiredIds(EmptyQueue<T>(), ops)[i] != FiredIds(EmptyQueue<T>(), ops)[j]
  {
    FiredFromPending(EmptyQueue<T>(), EmptyWorld<T>(), ops);
  }

  /** A pending timer fires exactly when it becomes due before it is cleared. */
  lemma {:induction false} PendingFires<T>(q: Queue<T>, w: World<T>, ops: seq<Op<T>>, id: int)
    requires Represents(q, w) && id in w.pending
    ensures id in FiredIds(q, ops) <==> DueBeforeCleared(ops, w.pending[id].at - w.now, id)
    decreases ops
  {
    hide Represents, Fired, QueueStep, WorldStep, FiresDue, FiredIds, HasId, DueBeforeCleared, TimeOf;
    if ops == [] {
      NothingIsDue(q, w.pending[id].at - w.now, id);
    } else {
      var op, rest := ops[0], ops[1..];
      var q1, w1 := QueueStep(q, op), WorldStep(w, op);
      StepRefines(q, w, op);
      NothingElseFires(q, op);
      PendingIsOld(q, w, id);
      OneStepFires(Fired(q, op), w, op, id);
      FiredIdsStep(q, ops, id);
      DueBeforeClearedStep(ops, w.pending[id].at - w.now, id);
      StillNew(w, op);
      if id in w1.pending {
        PendingFires(q1, w1, rest, id);
      } else {
        NeverAgain(q1, w1, rest, id);
      }
    }
  }

  lemma NothingIsDue<T>(q: Queue<T>, left: int, id: int)
    ensures FiredIds(q, []) == [] && !DueBeforeCleared<T>([], left, id)
  {
  }

  lemma NeverAgain<T>(q: Queue<T>, w: World<T>, ops: seq<Op<T>>, id: int)
    requires Represents(q, w) && id <= w.lastId && id !in w.pending
    ensures id !in FiredIds(q, ops)
  {
    hide FiredIds;
    FiredFromPending(q, w, ops);
  }

  lemma PendingIsOld<T>(q: Queue<T>, w: World<T>, id: int)
    requires Represents(q, w) && id in w.pending
    ensures id <= w.lastId
  {
    var ts := Remaining(q.entries, 0);
    assert HasId(ts, id);
    var i :| 0 <= i < |ts| && ts[i].id == id;
    assert Agrees(w, ts[i]);
  }

  lemma NothingElseFires<T>(q: Queue<T>, op: Op<T>)
    ensures !op.Age? ==> Fired(q, op) == []
  {
  }

  lemma FiredIdsStep<T>(q: Queue<T>, ops: seq<Op<T>>, id: int)
    requires ops != []
    ensures id in FiredIds(q, ops)
      <==> HasId(Fired(q, ops[0]), id) || id in FiredIds(QueueStep(q, ops[0]), ops[1..])
  {
    hide Fired, QueueStep, FiredIds;
    FiredIdsParts(q, ops);
    HasIdMeaning(Fired(q, ops[0]), id);
  }

  lemma HasIdMeaning<T>(ts: seq<Timer<T>>, id: int)
    ensures HasId(ts, id) <==> id in Ids(ts)
  {
    if id in Ids(ts) {
      var i :| 0 <= i < |ts| && Ids(ts)[i] == id;
      assert ts[i].id == id;
    }
    if i :| 0 <= i < |ts| && ts[i].id == id {
      assert Ids(ts)[i] == id;
    }
  }

  /** What one operation does to a pending timer: it fires it, clears it, or leaves it alone. */
  lemma OneStepFires<T>(fired: seq<Timer<T>>, w: World<T>, op: Op<T>, id: int)
    requires if op.Age? then FiresDue(fired, w, w.now + op.elapsed) else fired == []
    requires id in w.pending && id <= w.lastId
    ensures HasId(fired, id) <==> op.Age? && w.pending[id].at <= w.now + op.elapsed
    ensures id in WorldStep(w, op).pending <==> !HasId(fired, id) && op != ClearTimer(id)
    ensures id in WorldStep(w, op).pending ==> WorldStep(w, op).pending[id] == w.pending[id]
  {
    if HasId(fired, id) {
      var i :| 0 <= i < |fired| && fired[i].id == id;
      assert Agrees(w, fired[i]);
    }
  }

  /**
   A timer that is set after any history fires in a run exactly when it becomes due before it
   is cleared; by `NoTimerFiresTwice` it then fires once.
   */
  lemma TimerFires<T>(history: seq<Op<T>>, delay: int, action: T, ops: seq<Op<T>>)
    ensures var q := QueueRun(EmptyQueue(), history);
            q.lastId + 1 in FiredIds(QueueStep(q, SetTimer(delay, action)), ops)
            <==> DueBeforeCleared(ops, delay, q.lastId + 1)
  {
    hide QueueStep, Represents, FiredIds, DueBeforeCleared;
    var q1, w1, id := NewTimer(history, delay, action);
    PendingFires(q1, w1, ops, id);
  }

  /**
   The operation that fires a timer is the first one that ages the queue to its delay, if the
   timer has not been cleared by then.
   */
  lemma TimerFiresAt<T>(history: seq<Op<T>>, delay: int, action: T, ops: seq<Op<T>>, i: nat)
    requires i < |ops|
    ensures var q := QueueRun(EmptyQueue(), history);
            var id := q.lastId + 1;
            HasId(Fired(QueueRun(QueueStep(q, SetTimer(delay, action)), ops[..i]), ops[i]), id)
            <==> DueAt(ops, delay, i) && !ComesDue(ops[..i], delay) && NeverCleared(ops[..i], id)
  {
    hide QueueStep, Represents, HasId, Fired, ComesDue, NeverCleared, FiresDue, WorldStep;
    var q1, w1, id := NewTimer(history, delay, action);
    var qi, wi := QueueRun(q1, ops[..i]), WorldRun(w1, ops[..i]);
    RunRefines(q1, w1, ops[..i]);
    PendingAfter(w1, ops[..i], id);
    ClockOfRun(w1, ops[..i]);
    ElapsedSnoc(ops, i);
    StepRefines(qi, wi, ops[i]);
    NothingElseFires(qi, ops[i]);
    if id in wi.pending {
      PendingIsOld(qi, wi, id);
      OneStepFires(Fired(qi, ops[i]), wi, ops[i], id);
    } else if HasId(Fired(qi, ops[i]), id) {
      OnlyPendingFires(Fired(qi, ops[i]), wi, ops[i], id);
    }
  }

  lemma OnlyPendingFires<T>(fired: seq<Timer<T>>, w: World<T>, op: Op<T>, id: int)
    requires if op.Age? then FiresDue(fired, w, w.now + op.elapsed) else fired == []
    requires HasId(fired, id)
    ensures id in w.pending
  {
    var i :| 0 <= i < |fired| && fired[i].id == id;
    assert Agrees(w, fired[i]);
  }

  lemma {:induction false} ElapsedSnoc<T>(ops: seq<Op<T>>, i: nat)
    requires i < |ops|
    ensures Elapsed(ops[..i + 1]) == Elapsed(ops[..i]) + TimeOf(ops[i])
  {
    assert ops[..i + 1][1..] == ops[1..][..i];
    if i > 0 {
      assert ops[..i][1..] == ops[1..][..i - 1];
      ElapsedSnoc(ops[1..], i - 1);
    }
  }

  // ---------- clearing ----------

  /** After any history, a timer that has been cleared never fires again. */
  lemma ClearedNeverFires<T>(history: seq<Op<T>>, id: int, ops: seq<Op<T>>)
    ensures var q := QueueRun(EmptyQueue(), history);
            id <= q.lastId ==> id !in FiredIds(QueueStep(q, ClearTimer(id)), ops)
  {
    hide QueueStep, Represents;
    var q, w := QueueRun(EmptyQueue(), history), WorldRun(EmptyWorld(), history);
    EveryRunRefines(history);
    SameIds(q, w);
    StepRefines(q, w, ClearTimer(id));
    FiredFromPending(QueueStep(q, ClearTimer(id)), WorldStep(w, ClearTimer(id)), ops);
  }

  /**
   A timer that is cleared by what the functions of an ageing ask still fires, in that ageing,
   exactly when the time it had left before was used up.
   */
  lemma ClearedWhileAgeing<T>(q: Queue<T>, w: World<T>, elapsed: int, requests: seq<Op<T>>, ops: seq<Op<T>>, id: int)
    requires Represents(q, w) && id in w.pending
    requires NoAge(requests) && ClearTimer(id) in requests
    ensures id in FiredIds(q, [Age(elapsed)] + (requests + ops)) <==> Left(q, id) <= elapsed
  {
    hide Represents, FiredIds, Left;
    PendingFires(q, w, [Age(elapsed)] + (requests + ops), id);
    LeftMeaning(q, w, id);
    DueWhileAgeing(elapsed, requests, ops, id, w.pending[id].at - w.now);
  }

  lemma DueWhileAgeing<T>(elapsed: int, requests: seq<Op<T>>, ops: seq<Op<T>>, id: int, left: int)
    requires NoAge(requests) && ClearTimer(id) in requests
    ensures DueBeforeCleared([Age(elapsed)] + (requests + ops), left, id) <==> left <= elapsed
  {
    var run := [Age(elapsed)] + (requests + ops);
    DueUnclearedStep(run, left, id, 0);
    var c :| 0 <= c < |requests| && requests[c] == ClearTimer(id);
    forall i | i > 0
      ensures !DueUncleared(run, left, id, i)
    {
      if i <= |requests| {
        assert run[i] == requests[i - 1];
      } else if i < |run| {
        assert run[..i][c + 1] == requests[c];
      }
    }
  }
}
