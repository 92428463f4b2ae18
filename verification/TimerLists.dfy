/**
 The timer queue of callout.c as lists of values.

 The code keeps, with each timer, the time that is left after the timer before it has expired.
 `Remaining` turns such a list of differences into the time that each timer has left from
 now; the other functions say what the operations do to the differences, and the lemmas what
 that means for the remaining times.
 */
module TimerLists {

  /** A node of the queue; `time` is counted from the expiry of the node before it. */
  datatype Entry<T> = Entry(id: int, action: T, time: int)

  /** A timer that expires in `left` units. */
  datatype Timer<T> = Timer(id: int, action: T, left: int)

  /** The timers that a list stands for, when the times are counted from `base`. */
  function Remaining<T>(es: seq<Entry<T>>, base: int): (ts: seq<Timer<T>>)
    ensures |ts| == |es|
    decreases es
  {
    if es == [] then [] else
      [Timer(es[0].id, es[0].action, base + es[0].time)] + Remaining(es[1..], base + es[0].time)
  }

  function TotalTime<T>(es: seq<Entry<T>>): int
    decreases es
  {
    if es == [] then 0 else es[0].time + TotalTime(es[1..])
  }

  // ---------- the operations on differences ----------

  /** How many entries expire within `delay` units. */
  function Passed<T>(es: seq<Entry<T>>, delay: int): (k: nat)
    ensures k <= |es|
    decreases es
  {
    if es == [] || delay < es[0].time then 0 else 1 + Passed(es[1..], delay - es[0].time)
  }

  /** `es`, with the time of its first entry counted from `units` later. */
  function Deduct<T>(es: seq<Entry<T>>, units: int): seq<Entry<T>> {
    if es == [] then [] else [es[0].(time := es[0].time - units)] + es[1..]
  }

  /** A new entry goes behind those that expire within its delay; the next one gives way. */
  function InsertEntry<T>(es: seq<Entry<T>>, id: int, action: T, delay: int): seq<Entry<T>> {
    var k := Passed(es, delay);
    var rest := delay - TotalTime(es[..k]);
    es[..k] + ([Entry(id, action, rest)] + Deduct(es[k..], rest))
  }

  /** The first position of a timer, or the length of the list. */
  function Find<T>(es: seq<Entry<T>>, id: int): (k: nat)
    ensures k <= |es|
    ensures k < |es| ==> es[k].id == id
    ensures forall i :: 0 <= i < k ==> es[i].id != id
    decreases es
  {
    if es == [] || es[0].id == id then 0 else 1 + Find(es[1..], id)
  }

  /** The entry behind a removed one takes over its time. */
  function RemoveEntry<T>(es: seq<Entry<T>>, id: int): seq<Entry<T>> {
    var k := Find(es, id);
    if k == |es| then es else es[..k] + Deduct(es[k + 1..], -es[k].time)
  }

  /** The entries that are left after `elapsed` units. */
  function AgedEntries<T>(es: seq<Entry<T>>, elapsed: int): seq<Entry<T>> {
    var k := Passed(es, elapsed);
    Deduct(es[k..], elapsed - TotalTime(es[..k]))
  }

  // ---------- lists of remaining times ----------

  function Shift<T>(ts: seq<Timer<T>>, elapsed: int): (r: seq<Timer<T>>)
    ensures |r| == |ts|
    ensures forall i :: 0 <= i < |ts| ==> r[i] == ts[i].(left := ts[i].left - elapsed)
  {
    seq(|ts|, i requires 0 <= i < |ts| => ts[i].(left := ts[i].left - elapsed))
  }

  // ---------- what the differences mean ----------

  lemma RemainingCons<T>(e: Entry<T>, es: seq<Entry<T>>, base: int)
    ensures Remaining([e] + es, base) == [Timer(e.id, e.action, base + e.time)] + Remaining(es, base + e.time)
  {
    assert ([e] + es)[1..] == es;
  }

  lemma {:induction false} RemainingSame<T>(es: seq<Entry<T>>, base: int)
    ensures forall i :: 0 <= i < |es| ==>
      Remaining(es, base)[i].id == es[i].id && Remaining(es, base)[i].action == es[i].action
    decreases es
  {
    if es != [] {
      RemainingSame(es[1..], base + es[0].time);
    }
  }

  lemma {:induction false} RemainingConcat<T>(es: seq<Entry<T>>, fs: seq<Entry<T>>, base: int)
    ensures Remaining(es + fs, base) == Remaining(es, base) + Remaining(fs, base + TotalTime(es))
    decreases es
  {
    hide Remaining;
    if es == [] {
      assert es + fs == fs;
      RemainingNil<T>(base);
    } else {
      var e, tail := es[0], es[1..];
      assert es == [e] + tail;
      assert es + fs == [e] + (tail + fs);
      RemainingCons(e, tail, base);
      RemainingCons(e, tail + fs, base);
      RemainingConcat(tail, fs, base + e.time);
    }
  }

  lemma RemainingNil<T>(base: int)
    ensures Remaining<T>([], base) == []
  {
  }

  /** Deducting from the first entry is the same as counting from earlier. */
  lemma RemainingDeduct<T>(es: seq<Entry<T>>, units: int, base: int)
    ensures Remaining(Deduct(es, units), base + units) == Remaining(es, base)
  {
    hide Remaining;
    if es == [] {
      RemainingNil<T>(base);
      RemainingNil<T>(base + units);
    } else {
      assert es == [es[0]] + es[1..];
      RemainingCons(es[0], es[1..], base);
      RemainingCons(es[0].(time := es[0].time - units), es[1..], base + units);
    }
  }

  lemma {:induction false} RemainingShift<T>(es: seq<Entry<T>>, base: int, elapsed: int)
    ensures Remaining(es, base - elapsed) == Shift(Remaining(es, base), elapsed)
    decreases es
  {
    hide Remaining, Shift;
    if es == [] {
      RemainingNil<T>(base);
      RemainingNil<T>(base - elapsed);
    } else {
      var e, tail := es[0], es[1..];
      assert es == [e] + tail;
      RemainingCons(e, tail, base);
      RemainingCons(e, tail, base - elapsed);
      RemainingShift(tail, base + e.time, elapsed);
    }
  }

  lemma RemainingParts<T>(front: seq<Entry<T>>, back: seq<Entry<T>>)
    ensures Remaining(front + back, 0)[..|front|] == Remaining(front, 0)
    ensures Remaining(front + back, 0)[|front|..] == Remaining(back, TotalTime(front))
  {
    hide *;
    RemainingConcat(front, back, 0);
  }

  lemma RemainingSplit<T>(es: seq<Entry<T>>, k: nat)
    requires k <= |es|
    ensures Remaining(es[..k], 0) == Remaining(es, 0)[..k]
    ensures Remaining(es[k..], TotalTime(es[..k])) == Remaining(es, 0)[k..]
  {
    hide *;
    RemainingParts(es[..k], es[k..]);
    assert es[..k] + es[k..] == es;
  }

  /** The entries that are passed are those with no more time left than the delay. */
  lemma {:induction false} PassedMeaning<T>(es: seq<Entry<T>>, base: int, delay: int)
    ensures var (k, ts) := (Passed(es, delay - base), Remaining(es, base));
            (forall i :: 0 <= i < k ==> ts[i].left <= delay) && (k < |ts| ==> ts[k].left > delay)
    decreases es
  {
    hide Remaining;
    if es != [] {
      var e, tail := es[0], es[1..];
      assert es == [e] + tail;
      RemainingCons(e, tail, base);
      if e.time <= delay - base {
        PassedMeaning(tail, base + e.time, delay);
      }
    }
  }

  /** Inserting leaves every other timer's expiry alone and gives the new one its delay. */
  lemma InsertRefines<T>(es: seq<Entry<T>>, id: int, action: T, delay: int)
    ensures var (k, ts) := (Passed(es, delay), Remaining(es, 0));
            Remaining(InsertEntry(es, id, action, delay), 0) == ts[..k] + [Timer(id, action, delay)] + ts[k..]
  {
    hide Remaining, TotalTime, Passed, Deduct;
    var k := Passed(es, delay);
    var total := TotalTime(es[..k]);
    var back := Deduct(es[k..], delay - total);
    RemainingSplit(es, k);
    RemainingConcat(es[..k], [Entry(id, action, delay - total)] + back, 0);
    RemainingCons(Entry(id, action, delay - total), back, total);
    RemainingDeduct(es[k..], delay - total, total);
  }

  /** Removing a timer leaves every other timer's expiry alone. */
  lemma RemoveRefines<T>(es: seq<Entry<T>>, id: int)
    ensures var (k, ts) := (Find(es, id), Remaining(es, 0));
            Remaining(RemoveEntry(es, id), 0) == if k == |es| then ts else ts[..k] + ts[k + 1..]
  {
    hide Remaining, TotalTime, Deduct;
    var k := Find(es, id);
    if k < |es| {
      var total := TotalTime(es[..k]);
      RemainingSplit(es, k);
      assert es[k..] == [es[k]] + es[k + 1..];
      RemainingCons(es[k], es[k + 1..], total);
      RemainingConcat(es[..k], Deduct(es[k + 1..], -es[k].time), 0);
      RemainingDeduct(es[k + 1..], -es[k].time, total + es[k].time);
      assert Remaining(es, 0)[k + 1..] == Remaining(es[k + 1..], total + es[k].time);
    }
  }

  /** Ageing keeps the timers that have not expired, with that much less time left. */
  lemma AgeRefines<T>(es: seq<Entry<T>>, elapsed: int)
    ensures Remaining(AgedEntries(es, elapsed), 0) == Shift(Remaining(es, 0)[Passed(es, elapsed)..], elapsed)
  {
    hide Remaining, TotalTime, Passed, Deduct, Shift;
    var k := Passed(es, elapsed);
    var total := TotalTime(es[..k]);
    RemainingSplit(es, k);
    RemainingDeduct(es[k..], elapsed - total, total - elapsed);
    RemainingShift(es[k..], total, elapsed);
  }
}
