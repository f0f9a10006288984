/**
 * The timer manager of src/timer.c: the sorted active list headed by
 * `timers`, the free list headed by `free_timers`, and the operations on
 * them.
 *
 * The C globals become the fields of a Scheduler; the records the C code
 * reaches through pointers live in `mem`, a map from addresses to records.
 * The ghost sequences `active` and `free` are the two lists as the links
 * spell them out (Valid ties them together). The clock read of getnow is
 * the parameter `clock`, malloc's answer is the parameter `alloc`, and
 * tmr_run reports the callbacks it would invoke instead of invoking them.
 */
module Timers {
  import opened TimeSpec
  import opened DeadlineList
  import opened ListState
  import opened Firings

  class Scheduler {
    /** The timer records that are allocated, by address. */
    var mem: Heap
    /** `timers`: the head of the active list, or Null. */
    var timers: int
    /** `free_timers`: the head of the free list, or Null. */
    var freeTimers: int

    ghost var active: seq<Handle>
    ghost var free: seq<Handle>

    /**
     * The active list is doubly linked and sorted; the free list is a stack
     * with NULL `prev` links; every allocated record is on exactly one of
     * them; and every deadline was produced by AddNsecs, so its nanosecond
     * field is below one second.
     */
    ghost predicate Valid()
      reads this
    {
      Consistent(mem, timers, active, freeTimers, free)
    }

    /** Both lists start out empty. */
    constructor ()
      ensures Valid() && active == [] && free == [] && mem == map[]
    {
      mem := map[];
      timers := Null;
      freeTimers := Null;
      active := [];
      free := [];
    }

    /**
     * list_add: link `t` into the active list before the first timer whose
     * deadline is strictly later, scanning from the head.
     */
    method ListAdd(t: Handle)
      requires Linked(mem, timers, active) && t in mem && t !in active
      modifies this
      ensures AddedAt(old(mem), old(timers), old(active), t, mem, timers, active)
      ensures freeTimers == old(freeTimers) && free == old(free)
    {
      ghost var m0, a0, head0 := mem, active, timers;
      ghost var ts := Times(mem, active);
      ghost var tm := mem[t].time;
      ghost var k := InsertPos(ts, tm);
      var m, head := mem, timers;
      if head == Null {
        /* No active timer: `t` alone makes the list. */
        head := t;
        m := m[t := m[t].(prev := Null, next := Null)];
        assert m == LinkAt(m0, a0, t, k);
      } else if Before(m[t].time, m[head].time) {
        /* Due strictly before the head: `t` becomes the head. */
        LinkedAt(m0, head0, a0, 0);
        m := m[t := m[t].(prev := Null, next := head)];
        m := m[head := m[head].(prev := t)];
        head := t;
        assert m == LinkAt(m0, a0, t, k);
      } else {
        /* Walk the list to the first entry due strictly later than `t`. */
        LinkedAt(m0, head0, a0, 0);
        var t2prev: int := head;
        var t2: int := m[head].next;
        ghost var i := 1;
        while t2 != Null && !Before(m[t].time, m[t2].time)
          invariant 1 <= i <= |a0|
          invariant t2prev == a0[i - 1]
          invariant t2 == if i < |a0| then a0[i] else Null
          invariant forall j :: 0 <= j < i ==> !Before(tm, ts[j])
          invariant m == m0 && head == head0
          invariant mem == m0 && timers == head0 && active == a0
          invariant freeTimers == old(freeTimers) && free == old(free)
          decreases |a0| - i
        {
          LinkedAt(m0, head0, a0, i);
          t2prev, t2 := t2, m[t2].next;
          i := i + 1;
        }
        assert k == i;
        if t2 != Null {
          /* `t2` is due strictly later: `t` goes between `t2prev` and `t2`. */
          m := m[t2prev := m[t2prev].(next := t)];
          m := m[t := m[t].(prev := t2prev, next := t2)];
          m := m[t2 := m[t2].(prev := t)];
        } else {
          /* No entry is due later: `t` becomes the last entry. */
          m := m[t2prev := m[t2prev].(next := t)];
          m := m[t := m[t].(prev := t2prev, next := Null)];
        }
        assert m == LinkAt(m0, a0, t, k);
      }
      mem, timers, active := m, head, Insert(a0, t, k);
    }

    /**
     * list_remove: unlink `t`, patching its neighbours' links; when `t` was
     * the head, `timers` moves on to its successor. `t`'s own record is
     * left as it was.
     */
    method ListRemove(t: Handle)
      requires Linked(mem, timers, active) && t in active
      modifies this
      ensures RemovedAt(old(mem), old(timers), old(active), t, mem, timers, active)
      ensures freeTimers == old(freeTimers) && free == old(free)
    {
      ghost var m0, a0, head0 := mem, active, timers;
      ghost var i := IndexOf(active, t);
      LinkedAt(m0, timers, a0, i);
      if i > 0 {
        LinkedAt(m0, timers, a0, i - 1);
      }
      if i + 1 < |a0| {
        LinkedAt(m0, timers, a0, i + 1);
      }
      var prev := mem[t].prev;
      var next := mem[t].next;
      if prev == Null {
        timers := next;
      } else {
        mem := mem[prev := mem[prev].(next := next)];
      }
      if next != Null {
        mem := mem[next := mem[next].(prev := prev)];
      }
      assert mem == UnlinkAt(m0, a0, i);
      active := Without(a0, i);
    }

    /**
     * list_resort: take `t` out of the active list and add it back in
     * order. `mu`, `hu` and `au` are the heap, head and active list between
     * the two steps.
     */
    method ListResort(t: Handle) returns (ghost mu: Heap, ghost hu: int, ghost au: seq<Handle>)
      requires Linked(mem, timers, active) && t in active
      modifies this
      ensures RemovedAt(old(mem), old(timers), old(active), t, mu, hu, au)
      ensures AddedAt(mu, hu, au, t, mem, timers, active)
      ensures freeTimers == old(freeTimers) && free == old(free)
    {
      ghost var m0, h0, a0 := mem, timers, active;
      ListRemove(t);
      mu, hu, au := mem, timers, active;
      SpliceOut(m0, h0, a0, IndexOf(a0, t));
      RemoveContents(a0, t);
      ListAdd(t);
    }

    /**
     * tmr_create: take the record at the head of the free list, or a fresh
     * one from malloc (`alloc`); fail with Null, changing nothing, when the
     * free list is empty and malloc fails. Otherwise fill in every field,
     * with the deadline `nsecs` after now, and add it to the active list.
     */
    method Create(nowP: Option<Timespec>, clock: Timespec, proc: ProcId, clientData: ClientData,
                  nsecs: Int64, periodic: bool, alloc: Option<Handle>) returns (t: int)
      requires Valid()
      requires alloc.Some? ==> alloc.value !in mem
      modifies this
      ensures Valid()
      ensures t == Null <==> old(free) == [] && alloc.None?
      ensures t == Null ==> mem == old(mem) && active == old(active) && free == old(free)
      ensures t != Null ==>
        t >= 0 && t in mem &&
        (old(free) != [] ==> t == old(free)[0] && free == old(free)[1..]) &&
        (old(free) == [] ==> t == alloc.value && free == []) &&
        mem.Keys == old(mem).Keys + {t as Handle} &&
        mem[t].proc == proc && mem[t].clientData == clientData && mem[t].nsecs == nsecs &&
        mem[t].periodic == periodic && mem[t].time == AddNsecs(GetNow(nowP, clock), nsecs) &&
        active == Insert(old(active), t, InsertPos(old(Times(mem, active)), mem[t].time)) &&
        forall h :: h in old(mem) && h != t ==> SameFields(mem[h], old(mem)[h])
    {
      var now := GetNow(nowP, clock);
      ghost var m0, h0, a0, ft0, f0 := mem, timers, active, freeTimers, free;
      assert Forward(m0, ft0, f0);
      if freeTimers != Null {
        t := freeTimers;
        freeTimers := mem[t].next;
        free := free[1..];
      } else {
        if alloc.None? {
          return Null;
        }
        t := alloc.value;
        mem := mem[t := Timer(0, 0, 0, false, Timespec(0, 0), Null, Null)];
      }
      mem := mem[t := mem[t].(proc := proc, clientData := clientData, nsecs := nsecs,
                              periodic := periodic, time := AddNsecs(now, nsecs))];
      ghost var m1, ft1, f1 := mem, freeTimers, free;
      if ft0 != Null {
        PopDetaches(m0, h0, a0, ft0, f0, m1, t, ft1, f1);
      } else {
        AllocDetaches(m0, h0, a0, ft0, f0, m1, t);
      }
      ListAdd(t);
      AddAttaches(m1, h0, a0, ft1, f1, t, mem, timers, active);
    }

    /**
     * tmr_timeout: nothing when no timer is active; otherwise the wait until
     * the head's deadline, clamped at zero. The head is the earliest, since
     * the list is sorted.
     */
    function Timeout(nowP: Option<Timespec>, clock: Timespec): (r: Option<Timespec>)
      reads this
      requires Valid()
      ensures r.None? <==> active == []
      ensures r.Some? ==>
        var deadline := mem[active[0]].time;
        var now := GetNow(nowP, clock);
        Normal(r.value) && r.value.sec >= 0 &&
        Total(r.value) == (if Total(deadline) <= Total(now) then 0 else Total(deadline) - Total(now)) &&
        forall h :: h in active ==> !Before(mem[h].time, deadline)
    {
      var now := GetNow(nowP, clock);
      if timers == Null then None else Some(Remaining(mem[timers].time, now))
    }

    /**
     * tmr_run: walk the active list from the head, reading each timer's
     * successor first; stop at the first timer not yet due; fire each due
     * one, then move a periodic timer on by its interval and re-sort it, or
     * cancel a one-shot timer. The result lists the callbacks invoked, in
     * order.
     *
     * Each firing was due and invoked its timer's callback; the deadlines
     * fired for never go backward; every timer's deadline is its old one
     * moved on once per firing; the one-shot timers that fired are on the
     * free list; every timer still active fired in this pass or is not
     * due; and nothing fires exactly when the list is empty or its head is
     * not due.
     */
    method Run(nowP: Option<Timespec>, clock: Timespec) returns (fired: seq<Firing>)
      requires Valid()
      requires forall h :: h in active && mem[h].periodic && !Before(GetNow(nowP, clock), mem[h].time) ==> mem[h].nsecs != 0
      modifies this
      ensures Valid()
      ensures mem.Keys == old(mem).Keys
      ensures forall h :: h in mem ==>
        SamePayload(mem[h], old(mem)[h]) && mem[h].time == Expiry(old(mem)[h], Occurrences(fired, h))
      ensures FiredAsDue(old(mem), fired, GetNow(nowP, clock)) && FiredInOrder(fired)
      ensures free == Retired(old(mem), fired) + old(free)
      ensures forall h :: h in active ==> Occurrences(fired, h) > 0 || Before(GetNow(nowP, clock), mem[h].time)
      ensures fired == [] <==> old(active) == [] || Before(GetNow(nowP, clock), old(mem)[old(active)[0]].time)
      ensures fired != [] ==> fired[0].timer == old(active)[0]
    {
      var now := GetNow(nowP, clock);
      ghost var m0, a0, f0 := mem, active, free;
      RunStart(m0, timers, a0, freeTimers, f0, now);
      fired := [];
      var t := timers;
      ghost var pos: nat := 0;
      while t != Null
        invariant Valid()
        invariant RunInv(m0, a0, f0, now, mem, active, free, fired, pos, t)
        decreases |active| - pos, Weight(Times(mem, active), now)
      {
        var next := mem[t].next;
        if Before(now, mem[t].time) {
          break;
        }
        var f := Firing(t, mem[t].proc, mem[t].clientData, mem[t].time);
        pos := RescheduleOrRetire(t, now, m0, a0, f0, fired, pos);
        fired := fired + [f];
        t := next;
      }
      RunEnd(m0, a0, f0, now, mem, timers, active, freeTimers, free, fired, pos, t);
    }

    /**
     * What tmr_run does with the due timer `t` at its cursor once the
     * callback has fired: a periodic timer moves on by its interval from
     * the deadline it fired for and is re-sorted; a one-shot timer is
     * cancelled. The loop's invariant holds again with the firing added and
     * the cursor on `t`'s old successor, at position `pos'`; and the
     * termination measure falls: fewer entries from the cursor on, or as
     * many and less slack.
     */
    method RescheduleOrRetire(t: Handle, now: Timespec, ghost m0: Heap, ghost a0: seq<Handle>,
                              ghost f0: seq<Handle>, ghost fired: seq<Firing>, ghost pos: nat)
      returns (ghost pos': nat)
      requires Valid() && RunInv(m0, a0, f0, now, mem, active, free, fired, pos, t)
      requires t in mem && !Before(now, mem[t].time)
      modifies this
      ensures Valid()
      ensures RunInv(m0, a0, f0, now, mem, active, free,
                     fired + [Firing(t, old(mem)[t].proc, old(mem)[t].clientData, old(mem)[t].time)],
                     pos', old(mem)[t].next)
      ensures |active| - pos' < old(|active|) - pos ||
              (|active| - pos' == old(|active|) - pos &&
               Weight(Times(mem, active), now) < old(Weight(Times(mem, active), now)))
    {
      ghost var mem0, timers0, active0, ft0, free0 := mem, timers, active, freeTimers, free;
      if mem[t].periodic {
        ghost var k := InsertPos(Times(mem, Remove(active, t)), AddNsecs(mem[t].time, mem[t].nsecs));
        Reschedule(t, mem[t].time);
        RescheduleIteration(m0, a0, f0, now, mem0, timers0, active0, ft0, free0, fired, pos, t,
                            mem, active, k);
        pos' := if k <= pos then pos + 1 else pos;
      } else {
        Cancel(t);
        RetireIteration(m0, a0, f0, now, mem0, timers0, active0, ft0, free0, fired, pos, t,
                        mem, active, free);
        pos' := pos;
      }
    }

    /**
     * The step tmr_run and tmr_reset share: set an active timer's deadline
     * to one interval after `base` (add_nsecs), then re-sort it
     * (list_resort). Only its deadline and the links change.
     */
    method Reschedule(t: Handle, base: Timespec)
      requires Valid() && t in active
      modifies this
      ensures Valid()
      ensures Retimed(old(mem), old(active), t, AddNsecs(base, old(mem)[t].nsecs), mem, active)
      ensures freeTimers == old(freeTimers) && free == old(free)
    {
      ghost var m0, h0, a0, ft0, f0 := mem, timers, active, freeTimers, free;
      mem := mem[t := mem[t].(time := AddNsecs(base, mem[t].nsecs))];
      RetimeReady(m0, h0, a0, ft0, f0, t, mem);
      ghost var mu, hu, au := ListResort(t);
      RetimeResorts(m0, h0, a0, ft0, f0, t, AddNsecs(base, m0[t].nsecs), mu, hu, au, mem, timers, active);
      ResortRetimes(m0, h0, a0, t, AddNsecs(base, m0[t].nsecs), mu, hu, au, mem, timers, active);
    }

    /**
     * tmr_reset: give an active timer the deadline one interval after now,
     * and re-sort it.
     */
    method Reset(nowP: Option<Timespec>, clock: Timespec, t: Handle)
      requires Valid() && t in active
      modifies this
      ensures Valid()
      ensures mem.Keys == old(mem).Keys
      ensures mem[t].time == AddNsecs(GetNow(nowP, clock), old(mem)[t].nsecs)
      ensures forall h :: h in mem ==> SamePayload(mem[h], old(mem)[h])
      ensures forall h :: h in mem && h != t ==> mem[h].time == old(mem)[h].time
      ensures active == Insert(Remove(old(active), t), t,
                               InsertPos(old(Times(mem, Remove(active, t))), mem[t].time))
      ensures free == old(free)
    {
      var now := GetNow(nowP, clock);
      Reschedule(t, now);
    }

    /**
     * tmr_cancel: unlink `t` from the active list and push it on the free
     * list, with a NULL `prev` link.
     */
    method Cancel(t: Handle)
      requires Valid() && t in active
      modifies this
      ensures Valid()
      ensures active == Remove(old(active), t)
      ensures free == [t] + old(free)
      ensures mem.Keys == old(mem).Keys
      ensures forall h :: h in mem ==> SameFields(mem[h], old(mem)[h])
    {
      ghost var m0, h0, a0, ft0, f0 := mem, timers, active, freeTimers, free;
      ListRemove(t);
      ghost var mu := mem;
      mem := mem[t := mem[t].(next := freeTimers)];
      freeTimers := t;
      mem := mem[t := mem[t].(prev := Null)];
      free := [t] + free;
      RemovePushes(m0, h0, a0, ft0, f0, t, mu, timers, active, mem);
    }

    /**
     * tmr_cleanup: free every record on the free list; the active timers
     * stay as they were.
     */
    method Cleanup()
      requires Valid()
      modifies this
      ensures Valid() && free == [] && freeTimers == Null
      ensures active == old(active) && timers == old(timers)
      ensures forall h :: h in mem <==> h in active
      ensures forall h :: h in mem ==> h in old(mem) && mem[h] == old(mem)[h]
    {
      while freeTimers != Null
        invariant Valid()
        invariant active == old(active) && timers == old(timers)
        invariant forall h :: h in mem ==> h in old(mem) && mem[h] == old(mem)[h]
        decreases |free|
      {
        assert Forward(mem, freeTimers, free);
        var t := freeTimers;
        FreeHead(mem, timers, active, freeTimers, free);
        freeTimers := mem[t].next;
        mem := mem - {t};
        free := free[1..];
      }
      assert Forward(mem, freeTimers, free);
    }

    /**
     * tmr_destroy: cancel every active timer, then free every record:
     * afterwards nothing is allocated.
     */
    method Destroy()
      requires Valid()
      modifies this
      ensures Valid() && active == [] && free == [] && mem == map[]
      ensures timers == Null && freeTimers == Null
    {
      while timers != Null
        invariant Valid()
        decreases |active|
      {
        assert Forward(mem, timers, active);
        Cancel(timers);
      }
      assert Forward(mem, timers, active);
      Cleanup();
      assert mem.Keys == {};
    }
  }
}
