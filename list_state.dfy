/**
 * The state the timer manager keeps consistent, and the steps by which its
 * operations move a record between the two lists.
 *
 * Consistent is the manager's invariant: the active list is linked and
 * sorted, the free list is a stack, every allocated record is on exactly
 * one of them, and every deadline has its nanosecond field below one
 * second. Detached is the same with one record `t` taken off both lists,
 * the state between list_remove and what follows it, and between taking a
 * record for tmr_create and list_add.
 */
module ListState {
  import opened TimeSpec
  import opened DeadlineList

  ghost predicate Consistent(mem: Heap, timers: int, active: seq<Handle>, freeTimers: int, free: seq<Handle>)
  {
    Linked(mem, timers, active) && Sorted(mem, active) && Stacked(mem, freeTimers, free) &&
    (forall h :: h in mem <==> h in active || h in free) &&
    (forall h :: h in active ==> h !in free) &&
    (forall h :: h in mem ==> mem[h].time.nsec < NsPerSec)
  }

  ghost predicate Detached(mem: Heap, timers: int, active: seq<Handle>, freeTimers: int, free: seq<Handle>, t: Handle)
  {
    Linked(mem, timers, active) && Sorted(mem, active) && Stacked(mem, freeTimers, free) &&
    t in mem && t !in active && t !in free &&
    (forall h :: h in mem <==> h in active || h in free || h == t) &&
    (forall h :: h in active ==> h !in free) &&
    (forall h :: h in mem ==> mem[h].time.nsec < NsPerSec)
  }

  /**
   * Unlinking an active record (the effect of list_remove) leaves it on
   * neither list and the rest consistent; only links changed.
   */
  lemma RemoveDetaches(m0: Heap, h0: int, a0: seq<Handle>, ft: int, f: seq<Handle>, t: Handle,
                       m1: Heap, h1: int, a1: seq<Handle>)
    requires Consistent(m0, h0, a0, ft, f) && RemovedAt(m0, h0, a0, t, m1, h1, a1)
    ensures Detached(m1, h1, a1, ft, f, t)
    ensures m1.Keys == m0.Keys && m1[t] == m0[t]
    ensures forall h :: h in m1 ==> SameFields(m1[h], m0[h])
  {
    assert Forward(m0, h0, a0);
    assert Forward(m0, ft, f);
    var i := IndexOf(a0, t);
    SpliceOut(m0, h0, a0, i);
    RemoveContents(a0, t);
    TimesWithout(m0, a0, i);
    RemoveSorted(Times(m0, a0), i);
    StackedFrame(m0, m1, ft, f);
  }

  /** Pushing the detached record on the free list (the tail of tmr_cancel). */
  lemma PushAttaches(m1: Heap, h1: int, a1: seq<Handle>, ft: int, f: seq<Handle>, t: Handle, m2: Heap)
    requires Detached(m1, h1, a1, ft, f, t)
    requires m2.Keys == m1.Keys && m2[t] == m1[t].(prev := Null, next := ft)
    requires forall h :: h in m1 && h != t ==> m2[h] == m1[h]
    ensures Consistent(m2, h1, a1, t, [t] + f)
  {
    assert Forward(m1, h1, a1);
    assert Forward(m1, ft, f);
    LinkedFrame(m1, m2, h1, a1);
    TimesFrame(m1, m2, a1);
    StackPush(m1, m2, ft, f, t);
  }

  /**
   * tmr_cancel's effect: list_remove, then `t` pushed on the free list with
   * a NULL `prev` link. The state is consistent again, `t` is the new top
   * of the free list, and no record changed other than in its links.
   */
  lemma RemovePushes(m0: Heap, h0: int, a0: seq<Handle>, ft: int, f: seq<Handle>, t: Handle,
                     mu: Heap, hu: int, au: seq<Handle>, m2: Heap)
    requires Consistent(m0, h0, a0, ft, f) && RemovedAt(m0, h0, a0, t, mu, hu, au)
    requires m2.Keys == mu.Keys && m2[t] == mu[t].(prev := Null, next := ft)
    requires forall h :: h in mu && h != t ==> m2[h] == mu[h]
    ensures Consistent(m2, hu, au, t, [t] + f)
    ensures m2.Keys == m0.Keys
    ensures forall h :: h in m2 ==> SameFields(m2[h], m0[h])
  {
    RemoveDetaches(m0, h0, a0, ft, f, t, mu, hu, au);
    PushAttaches(mu, hu, au, ft, f, t, m2);
  }

  /**
   * Linking the detached record into the active list (the effect of
   * list_add) makes the state consistent again; only links changed.
   */
  lemma AddAttaches(m1: Heap, h1: int, a1: seq<Handle>, ft: int, f: seq<Handle>, t: Handle,
                    m2: Heap, h2: int, a2: seq<Handle>)
    requires Detached(m1, h1, a1, ft, f, t) && AddedAt(m1, h1, a1, t, m2, h2, a2)
    ensures Consistent(m2, h2, a2, ft, f)
    ensures m2.Keys == m1.Keys
    ensures forall h :: h in m2 ==> SameFields(m2[h], m1[h])
  {
    assert Forward(m1, h1, a1);
    assert Forward(m1, ft, f);
    var k := InsertPos(Times(m1, a1), m1[t].time);
    SpliceIn(m1, h1, a1, t, k);
    InsertContents(a1, t, k);
    forall i | 0 <= i < |f|
      ensures f[i] in m2 && m2[f[i]] == m1[f[i]]
    {
      assert f[i] in f && f[i] in m1;
      assert f[i] != t && f[i] !in a1;
    }
    StackedFrame(m1, m2, ft, f);
  }

  /**
   * Taking the top of the free list for a new timer and filling in its
   * fields other than the links.
   */
  lemma PopDetaches(m0: Heap, h0: int, a0: seq<Handle>, ft: int, f: seq<Handle>, m1: Heap, t: Handle,
                     ft1: int, f1: seq<Handle>)
    requires Consistent(m0, h0, a0, ft, f) && f != [] && t == f[0]
    requires m1.Keys == m0.Keys && m1[t].time.nsec < NsPerSec
    requires forall h :: h in m0 && h != t ==> m1[h] == m0[h]
    requires ft1 == m0[t].next && f1 == f[1..]
    ensures Detached(m1, h0, a0, ft1, f1, t)
    ensures Times(m1, a0) == Times(m0, a0)
  {
    assert Forward(m0, h0, a0);
    StackPop(m0, ft, f);
    assert Forward(m0, m0[t].next, f[1..]);
    LinkedFrame(m0, m1, h0, a0);
    TimesFrame(m0, m1, a0);
    StackedFrame(m0, m1, m0[t].next, f[1..]);
    assert f == [t] + f[1..];
  }

  /** A fresh record from malloc, with its fields other than the links filled in. */
  lemma AllocDetaches(m0: Heap, h0: int, a0: seq<Handle>, ft: int, f: seq<Handle>, m1: Heap, t: Handle)
    requires Consistent(m0, h0, a0, ft, f) && t !in m0
    requires m1.Keys == m0.Keys + {t} && m1[t].time.nsec < NsPerSec
    requires forall h :: h in m0 ==> m1[h] == m0[h]
    ensures Detached(m1, h0, a0, ft, f, t)
    ensures Times(m1, a0) == Times(m0, a0)
  {
    assert Forward(m0, h0, a0);
    assert Forward(m0, ft, f);
    LinkedFrame(m0, m1, h0, a0);
    TimesFrame(m0, m1, a0);
    StackedFrame(m0, m1, ft, f);
  }

  /**
   * Giving an active record a new deadline keeps the links, and the others
   * still sorted: what list_resort needs.
   */
  lemma RetimeReady(m0: Heap, h0: int, a0: seq<Handle>, ft: int, f: seq<Handle>, t: Handle, m1: Heap)
    requires Consistent(m0, h0, a0, ft, f) && t in a0
    requires m1.Keys == m0.Keys && m1[t] == m0[t].(time := m1[t].time)
    requires forall h :: h in m0 && h != t ==> m1[h] == m0[h]
    ensures Linked(m1, h0, a0) && Sorted(m1, Remove(a0, t))
    ensures Times(m1, Remove(a0, t)) == Times(m0, Remove(a0, t))
  {
    assert Forward(m0, h0, a0);
    LinkedFrame(m0, m1, h0, a0);
    var i := IndexOf(a0, t);
    RemoveContents(a0, t);
    TimesWithout(m0, a0, i);
    RemoveSorted(Times(m0, a0), i);
    TimesFrame(m0, m1, Remove(a0, t));
  }

  /**
   * A new deadline `tm` for the active record `t`, followed by list_remove,
   * leaves `t` on neither list and the rest consistent, with the others'
   * deadlines as they were.
   */
  lemma RetimeDetaches(m0: Heap, h0: int, a0: seq<Handle>, ft: int, f: seq<Handle>, t: Handle, tm: Timespec,
                       mu: Heap, hu: int, au: seq<Handle>)
    requires Consistent(m0, h0, a0, ft, f) && t in a0 && tm.nsec < NsPerSec
    requires RemovedAt(m0[t := m0[t].(time := tm)], h0, a0, t, mu, hu, au)
    ensures Detached(mu, hu, au, ft, f, t)
    ensures mu.Keys == m0.Keys && mu[t].time == tm
    ensures forall h :: h in mu ==> SamePayload(mu[h], m0[h])
    ensures forall h :: h in mu && h != t ==> mu[h].time == m0[h].time
    ensures Times(mu, au) == Times(m0, au)
  {
    var m1 := m0[t := m0[t].(time := tm)];
    assert Forward(m0, h0, a0);
    assert Forward(m0, ft, f);
    RetimeReady(m0, h0, a0, ft, f, t, m1);
    var i := IndexOf(a0, t);
    SpliceOut(m1, h0, a0, i);
    RemoveContents(a0, t);
    TimesFrame(m1, mu, au);
    StackedFrame(m0, m1, ft, f);
    StackedFrame(m1, mu, ft, f);
  }

  /**
   * What giving the record `t` the deadline `tm` and re-sorting it does to
   * the heap `m0` and the active list `a0`: the same records, `t` with the
   * new deadline, every other field of every record (payload and other
   * deadlines) as it was, and `t` placed where list_add puts it among the
   * others.
   */
  ghost predicate Retimed(m0: Heap, a0: seq<Handle>, t: Handle, tm: Timespec, m2: Heap, a2: seq<Handle>)
  {
    m2.Keys == m0.Keys && t in m2 && m2[t].time == tm &&
    (forall h :: h in m2 ==> SamePayload(m2[h], m0[h])) &&
    (forall h :: h in m2 && h != t ==> m2[h].time == m0[h].time) &&
    t in a0 && InHeap(m0, Remove(a0, t)) &&
    a2 == Insert(Remove(a0, t), t, InsertPos(Times(m0, Remove(a0, t)), tm))
  }

  /**
   * A new deadline `tm` for the active record `t`, followed by
   * list_resort (list_remove leaving `mu`, `hu`, `au`, then list_add),
   * leaves the state consistent.
   */
  lemma RetimeResorts(m0: Heap, h0: int, a0: seq<Handle>, ft: int, f: seq<Handle>, t: Handle, tm: Timespec,
                      mu: Heap, hu: int, au: seq<Handle>, m2: Heap, h2: int, a2: seq<Handle>)
    requires Consistent(m0, h0, a0, ft, f) && t in a0 && tm.nsec < NsPerSec
    requires RemovedAt(m0[t := m0[t].(time := tm)], h0, a0, t, mu, hu, au)
    requires AddedAt(mu, hu, au, t, m2, h2, a2)
    ensures Consistent(m2, h2, a2, ft, f)
  {
    RetimeDetaches(m0, h0, a0, ft, f, t, tm, mu, hu, au);
    AddAttaches(mu, hu, au, ft, f, t, m2, h2, a2);
  }

  /**
   * The same two steps retime: list_remove and list_add write only links,
   * so the records keep their payloads and deadlines, and `t` goes where
   * list_add puts it among the others.
   */
  lemma ResortRetimes(m0: Heap, h0: int, a0: seq<Handle>, t: Handle, tm: Timespec,
                      mu: Heap, hu: int, au: seq<Handle>, m2: Heap, h2: int, a2: seq<Handle>)
    requires Distinct(a0) && InHeap(m0, a0) && t in a0
    requires RemovedAt(m0[t := m0[t].(time := tm)], h0, a0, t, mu, hu, au)
    requires AddedAt(mu, hu, au, t, m2, h2, a2)
    ensures Retimed(m0, a0, t, tm, m2, a2)
  {
    var m1 := m0[t := m0[t].(time := tm)];
    UnlinkAtFields(m1, a0, IndexOf(a0, t));
    LinkAtFields(mu, au, t, InsertPos(Times(mu, au), mu[t].time));
    RemoveContents(a0, t);
    TimesFrame(m0, mu, au);
  }

  /** free() of the top of the free list (one step of tmr_cleanup). */
  lemma FreeHead(m: Heap, h: int, a: seq<Handle>, ft: int, f: seq<Handle>)
    requires Consistent(m, h, a, ft, f) && f != []
    ensures Consistent(m - {f[0]}, h, a, m[f[0]].next, f[1..])
  {
    assert Forward(m, h, a);
    StackPop(m, ft, f);
    var m1 := m - {f[0]};
    assert f == [f[0]] + f[1..];
    LinkedFrame(m, m1, h, a);
    TimesFrame(m, m1, a);
    assert Forward(m, m[f[0]].next, f[1..]);
    StackedFrame(m, m1, m[f[0]].next, f[1..]);
  }
}
