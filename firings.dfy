/**
 * What tmr_run does, stated on values: the callbacks it invokes (Firing),
 * the deadlines a periodic timer moves through (Expiry), the one-shot
 * timers it retires to the free list (Retired), the loop's invariant
 * (RunInv) and how one iteration keeps it.
 *
 * tmr_run walks the active list from its head, reading each timer's
 * successor before firing it, and stops at the first timer that is not
 * yet due. A fired periodic timer is moved on by its interval and
 * re-sorted, possibly in front of the walk, where it is not visited again
 * in the same pass; so a pass does not fire every due deadline, but every
 * timer still active afterwards has either fired in the pass or is not
 * due.
 */
module Firings {
  import opened TimeSpec
  import opened DeadlineList
  import opened ListState

  /**
   * One callback invocation by tmr_run: the timer that fired, the callback
   * and argument it was invoked with, and the deadline it fired for.
   */
  datatype Firing = Firing(timer: Handle, proc: ProcId, clientData: ClientData, expiry: Timespec)

  /** How many times `h` fired in `fs`. */
  function Occurrences(fs: seq<Firing>, h: Handle): nat
  {
    if fs == [] then 0
    else Occurrences(fs[..|fs| - 1], h) + (if fs[|fs| - 1].timer == h then 1 else 0)
  }

  /**
   * The deadline of record `x` after it has fired `k` times: a periodic
   * timer moves on by its interval from its previous deadline each time;
   * a one-shot timer keeps its deadline.
   */
  function Expiry(x: Timer, k: nat): Timespec
  {
    if k == 0 || !x.periodic then x.time else AddNsecs(Expiry(x, k - 1), x.nsecs)
  }

  /**
   * Rescheduling keeps the phase: after `k` firings a periodic timer is due
   * exactly `k` intervals after its original deadline, however late it
   * was run.
   */
  lemma {:induction false} ExpiryKeepsPhase(x: Timer, k: nat)
    requires x.periodic
    ensures Total(Expiry(x, k)) == Total(x.time) + k * x.nsecs
  {
    if k > 0 {
      ExpiryKeepsPhase(x, k - 1);
      assert k * x.nsecs == (k - 1) * x.nsecs + x.nsecs;
    }
  }

  /** The one-shot timers among `fs`, latest first: what tmr_run pushes on the free list. */
  function Retired(mem: Heap, fs: seq<Firing>): seq<Handle>
  {
    if fs == [] then []
    else
      var f := fs[|fs| - 1];
      (if f.timer in mem && !mem[f.timer].periodic then [f.timer] else []) + Retired(mem, fs[..|fs| - 1])
  }

  /** Each firing invoked its timer's callback with its argument, for a deadline that was due. */
  ghost predicate FiredAsDue(m0: Heap, fs: seq<Firing>, now: Timespec)
  {
    forall i :: 0 <= i < |fs| ==>
      fs[i].timer in m0 && fs[i].proc == m0[fs[i].timer].proc &&
      fs[i].clientData == m0[fs[i].timer].clientData &&
      fs[i].expiry == Expiry(m0[fs[i].timer], Occurrences(fs[..i], fs[i].timer)) &&
      !Before(now, fs[i].expiry)
  }

  /** The deadlines fired for never go backward. */
  ghost predicate FiredInOrder(fs: seq<Firing>)
  {
    forall i, j :: 0 <= i < j < |fs| ==> !Before(fs[j].expiry, fs[i].expiry)
  }

  lemma OccurrencesSnoc(fs: seq<Firing>, f: Firing, h: Handle)
    ensures Occurrences(fs + [f], h) == Occurrences(fs, h) + (if f.timer == h then 1 else 0)
  {
    assert (fs + [f])[..|fs|] == fs;
  }

  lemma RetiredSnoc(mem: Heap, fs: seq<Firing>, f: Firing)
    ensures Retired(mem, fs + [f]) ==
      (if f.timer in mem && !mem[f.timer].periodic then [f.timer] else []) + Retired(mem, fs)
  {
    assert (fs + [f])[..|fs|] == fs;
  }

  lemma FiredAsDueSnoc(m0: Heap, fs: seq<Firing>, f: Firing, now: Timespec)
    requires FiredAsDue(m0, fs, now)
    requires f.timer in m0 && f.proc == m0[f.timer].proc && f.clientData == m0[f.timer].clientData
    requires f.expiry == Expiry(m0[f.timer], Occurrences(fs, f.timer)) && !Before(now, f.expiry)
    ensures FiredAsDue(m0, fs + [f], now)
  {
    var r := fs + [f];
    assert r[..|fs|] == fs;
    forall i | 0 <= i < |fs|
      ensures r[..i] == fs[..i]
    {
    }
  }

  lemma FiredInOrderSnoc(fs: seq<Firing>, f: Firing)
    requires FiredInOrder(fs)
    requires fs != [] ==> !Before(f.expiry, fs[|fs| - 1].expiry)
    ensures FiredInOrder(fs + [f])
  {
    var r := fs + [f];
    forall i, j | 0 <= i < j < |r|
      ensures !Before(r[j].expiry, r[i].expiry)
    {
      if j == |fs| && i < |fs| - 1 {
        assert !Before(fs[|fs| - 1].expiry, fs[i].expiry);
      }
    }
  }

  /**
   * Why tmr_run needs non-zero intervals on due timers: two due periodic
   * timers `a` and `b` with interval 0 and the same deadline trade places
   * on every re-sort (list_add puts a timer after the equal deadlines), so
   * the walk, which moves on to the successor it read before firing,
   * alternates between them and never reaches the end of the list.
   */
  lemma ZeroIntervalSwaps(a: Handle, b: Handle, tm: Timespec)
    requires a != b && tm.nsec < NsPerSec
    ensures AddNsecs(tm, 0) == tm
    ensures Insert(Remove([a, b], a), a, InsertPos([tm], AddNsecs(tm, 0))) == [b, a]
    ensures Insert(Remove([b, a], b), b, InsertPos([tm], AddNsecs(tm, 0))) == [a, b]
  {
    assert Remove([a, b], a) == [b];
    assert Remove([b, a], b) == [a];
  }

  // Termination of tmr_run: every firing either retires the timer at the
  // cursor, or puts it back at or before the cursor, which then moves one
  // position on, or moves a due deadline later and puts it after the
  // cursor. In the last case the total slack of the deadlines below a
  // horizon fixed by `now` falls, since a due deadline lies within it.

  /**
   * add_nsecs with a negative count gives a deadline strictly before the
   * old one under the C comparison, when the old one had its nanosecond
   * field below one second.
   */
  lemma BackwardIsBefore(t: Timespec, n: Int64)
    requires t.nsec < NsPerSec && n < 0
    ensures Before(AddNsecs(t, n), t)
  {
    var q, r := DivSec(n), RemSec(n);
    assert q * NsPerSec + r == n;
    assert q <= 0;
  }

  /**
   * So list_add puts a timer moved back by a negative interval at or
   * before its old position `pos` in a sorted list.
   */
  lemma BackwardStaysBehind(ts: seq<Timespec>, pos: nat, n: Int64)
    requires SortedTimes(ts) && pos < |ts| && ts[pos].nsec < NsPerSec && n < 0
    ensures InsertPos(Without(ts, pos), AddNsecs(ts[pos], n)) <= pos
  {
    var w := Without(ts, pos);
    var tm := AddNsecs(ts[pos], n);
    BackwardIsBefore(ts[pos], n);
    if pos < |w| {
      assert w[pos] == ts[pos + 1];
      assert !Before(ts[pos + 1], ts[pos]);
      assert Before(tm, w[pos]);
    }
  }

  function Horizon(now: Timespec): int
  {
    now.sec * NsPerSec + (if now.nsec > 0 then now.nsec else 0)
  }

  function Slack(t: Timespec, now: Timespec): nat
  {
    if Total(t) <= Horizon(now) then Horizon(now) - Total(t) + 1 else 0
  }

  lemma DueHasSlack(t: Timespec, now: Timespec)
    requires t.nsec < NsPerSec && !Before(now, t)
    ensures Slack(t, now) > 0
  {
  }

  ghost function Weight(ts: seq<Timespec>, now: Timespec): nat
  {
    if ts == [] then 0 else Slack(ts[0], now) + Weight(ts[1..], now)
  }

  lemma {:induction false} WeightConcat(a: seq<Timespec>, b: seq<Timespec>, now: Timespec)
    ensures Weight(a + b, now) == Weight(a, now) + Weight(b, now)
  {
    if a == [] {
      assert a + b == b;
    } else {
      assert (a + b)[1..] == a[1..] + b;
      WeightConcat(a[1..], b, now);
    }
  }

  lemma WeightInsert(ts: seq<Timespec>, x: Timespec, k: nat, now: Timespec)
    requires k <= |ts|
    ensures Weight(Insert(ts, x, k), now) == Weight(ts, now) + Slack(x, now)
  {
    assert ts == ts[..k] + ts[k..];
    WeightConcat(ts[..k], ts[k..], now);
    WeightConcat(ts[..k] + [x], ts[k..], now);
    WeightConcat(ts[..k], [x], now);
  }

  lemma WeightWithout(ts: seq<Timespec>, i: nat, now: Timespec)
    requires i < |ts|
    ensures Weight(Without(ts, i), now) == Weight(ts, now) - Slack(ts[i], now)
  {
    assert ts == ts[..i] + [ts[i]] + ts[i + 1..];
    WeightConcat(ts[..i] + [ts[i]], ts[i + 1..], now);
    WeightConcat(ts[..i], [ts[i]], now);
    WeightConcat(ts[..i], ts[i + 1..], now);
  }

  /**
   * The firings so far, from a start state `m0`, `a0`: each was due and
   * invoked its timer's callback with its argument, they are in order of
   * deadline, and the first, if any, was the start head.
   */
  ghost predicate HistoryInv(m0: Heap, a0: seq<Handle>, now: Timespec, fired: seq<Firing>)
  {
    FiredAsDue(m0, fired, now) && FiredInOrder(fired) &&
    (fired != [] ==> a0 != [] && fired[0].timer == a0[0])
  }

  /**
   * No record was allocated or freed and none changed its payload; each
   * deadline is its start deadline moved on once per firing; the one-shot
   * timers that fired went on the free list.
   */
  ghost predicate StoreInv(m0: Heap, f0: seq<Handle>, mem: Heap, free: seq<Handle>, fired: seq<Firing>)
  {
    mem.Keys == m0.Keys &&
    (forall h :: h in mem ==>
      SamePayload(mem[h], m0[h]) && mem[h].time == Expiry(m0[h], Occurrences(fired, h))) &&
    free == Retired(m0, fired) + f0
  }

  /**
   * The cursor `t` sits at position `pos`; every timer before it has fired;
   * and its deadline is not before the last one fired for.
   */
  ghost predicate CursorInv(mem: Heap, active: seq<Handle>, fired: seq<Firing>, pos: nat, t: int)
  {
    pos <= |active| && t == (if pos < |active| then active[pos] else Null) &&
    (forall j :: 0 <= j < pos ==> Occurrences(fired, active[j]) > 0) &&
    (fired != [] && t in mem ==> !Before(mem[t].time, fired[|fired| - 1].expiry))
  }

  /** The active periodic timers that are due have non-zero intervals. */
  ghost predicate DueNonZero(mem: Heap, active: seq<Handle>, now: Timespec)
  {
    forall h :: h in active && h in mem && mem[h].periodic && !Before(now, mem[h].time) ==> mem[h].nsecs != 0
  }

  /** The invariant of tmr_run's loop. */
  ghost predicate RunInv(m0: Heap, a0: seq<Handle>, f0: seq<Handle>, now: Timespec,
                         mem: Heap, active: seq<Handle>, free: seq<Handle>,
                         fired: seq<Firing>, pos: nat, t: int)
  {
    HistoryInv(m0, a0, now, fired) && StoreInv(m0, f0, mem, free, fired) &&
    CursorInv(mem, active, fired, pos, t) && DueNonZero(mem, active, now) &&
    (fired == [] ==> pos == 0 && mem == m0 && active == a0)
  }

  /** The invariant holds before the first iteration. */
  lemma RunStart(m0: Heap, h0: int, a0: seq<Handle>, ft: int, f0: seq<Handle>, now: Timespec)
    requires Consistent(m0, h0, a0, ft, f0)
    requires forall h :: h in a0 && m0[h].periodic && !Before(now, m0[h].time) ==> m0[h].nsecs != 0
    ensures RunInv(m0, a0, f0, now, m0, a0, f0, [], 0, h0)
  {
    assert Forward(m0, h0, a0);
  }

  /** Firing the cursor's timer, due, for its current deadline extends the history. */
  lemma FireHistory(m0: Heap, a0: seq<Handle>, f0: seq<Handle>, now: Timespec,
                    mem: Heap, active: seq<Handle>, free: seq<Handle>,
                    fired: seq<Firing>, pos: nat, t: Handle)
    requires RunInv(m0, a0, f0, now, mem, active, free, fired, pos, t)
    requires t in mem && !Before(now, mem[t].time)
    ensures HistoryInv(m0, a0, now, fired + [Firing(t, mem[t].proc, mem[t].clientData, mem[t].time)])
  {
    var f := Firing(t, mem[t].proc, mem[t].clientData, mem[t].time);
    FiredAsDueSnoc(m0, fired, f, now);
    FiredInOrderSnoc(fired, f);
  }

  lemma OccurrencesGrow(fired: seq<Firing>, f: Firing)
    ensures forall h :: Occurrences(fired + [f], h) == Occurrences(fired, h) + (if h == f.timer then 1 else 0)
  {
    forall h
      ensures Occurrences(fired + [f], h) == Occurrences(fired, h) + (if h == f.timer then 1 else 0)
    {
      OccurrencesSnoc(fired, f, h);
    }
  }

  /** Cancelling a fired one-shot timer keeps the store in step with the history. */
  lemma RetireStore(m0: Heap, f0: seq<Handle>, mem: Heap, free: seq<Handle>, fired: seq<Firing>,
                    f: Firing, mem': Heap)
    requires StoreInv(m0, f0, mem, free, fired)
    requires f.timer in mem && !mem[f.timer].periodic
    requires mem'.Keys == mem.Keys
    requires forall h :: h in mem' ==> SameFields(mem'[h], mem[h])
    ensures StoreInv(m0, f0, mem', [f.timer] + free, fired + [f])
  {
    var fs := fired + [f];
    forall h | h in mem'
      ensures SamePayload(mem'[h], m0[h]) && mem'[h].time == Expiry(m0[h], Occurrences(fs, h))
    {
      OccurrencesSnoc(fired, f, h);
    }
    RetiredSnoc(m0, fired, f);
  }

  /** Moving a fired periodic timer on by its interval keeps the store in step. */
  lemma RescheduleStore(m0: Heap, f0: seq<Handle>, mem: Heap, free: seq<Handle>, fired: seq<Firing>,
                        f: Firing, mem': Heap)
    requires StoreInv(m0, f0, mem, free, fired)
    requires f.timer in mem && mem[f.timer].periodic
    requires mem'.Keys == mem.Keys
    requires mem'[f.timer].time == AddNsecs(mem[f.timer].time, mem[f.timer].nsecs)
    requires forall h :: h in mem' ==> SamePayload(mem'[h], mem[h])
    requires forall h :: h in mem' && h != f.timer ==> mem'[h].time == mem[h].time
    ensures StoreInv(m0, f0, mem', free, fired + [f])
  {
    var fs := fired + [f];
    forall h | h in mem'
      ensures SamePayload(mem'[h], m0[h]) && mem'[h].time == Expiry(m0[h], Occurrences(fs, h))
    {
      OccurrencesSnoc(fired, f, h);
      if h == f.timer {
        var n := Occurrences(fired, h);
        assert Expiry(m0[h], n + 1) == AddNsecs(Expiry(m0[h], n), m0[h].nsecs);
      }
    }
    RetiredSnoc(m0, fired, f);
  }

  /** After a one-shot timer is cancelled the cursor stays at its position, on its old successor. */
  lemma RetireCursor(mem: Heap, timers: int, active: seq<Handle>, fired: seq<Firing>, pos: nat, t: Handle,
                     f: Firing, mem': Heap, active': seq<Handle>)
    requires Linked(mem, timers, active) && Sorted(mem, active)
    requires CursorInv(mem, active, fired, pos, t)
    requires f.timer == t && t in mem && f.expiry == mem[t].time
    requires active' == Remove(active, t) && mem'.Keys == mem.Keys
    requires forall h :: h in mem' ==> SameFields(mem'[h], mem[h])
    ensures CursorInv(mem', active', fired + [f], pos, mem[t].next)
  {
    assert Forward(mem, timers, active);
    IndexOfDistinct(active, pos);
    LinkedAt(mem, timers, active, pos);
    OccurrencesGrow(fired, f);
    var ts := Times(mem, active);
    if pos + 1 < |active| {
      assert !Before(ts[pos + 1], ts[pos]);
    }
  }

  /**
   * After a periodic timer is re-sorted to position `k` of the list
   * without it, the cursor is on its old successor, one position further
   * when the timer went back in front of it.
   */
  lemma RescheduleCursor(mem: Heap, timers: int, active: seq<Handle>, fired: seq<Firing>, pos: nat, t: Handle,
                         f: Firing, mem': Heap, active': seq<Handle>, k: nat)
    requires Linked(mem, timers, active) && Sorted(mem, active)
    requires CursorInv(mem, active, fired, pos, t)
    requires f.timer == t && t in mem && f.expiry == mem[t].time
    requires k <= |active| - 1 && active' == Insert(Remove(active, t), t, k)
    requires mem'.Keys == mem.Keys
    requires forall h :: h in mem' ==> SamePayload(mem'[h], mem[h])
    requires forall h :: h in mem' && h != t ==> mem'[h].time == mem[h].time
    ensures CursorInv(mem', active', fired + [f], if k <= pos then pos + 1 else pos, mem[t].next)
  {
    var fs := fired + [f];
    var pos' := if k <= pos then pos + 1 else pos;
    var next := mem[t].next;
    assert Forward(mem, timers, active);
    assert pos < |active| && active[pos] == t;
    IndexOfDistinct(active, pos);
    var w := Without(active, pos);
    assert Remove(active, t) == w;
    LinkedAt(mem, timers, active, pos);
    RemoveContents(active, t);
    InsertContents(w, t, k);
    if pos + 1 < |active| {
      assert next == active[pos + 1];
      if k <= pos {
        assert active'[pos + 1] == w[pos];
      } else {
        assert active'[pos] == w[pos];
      }
      assert next == active'[pos'];
      var ts := Times(mem, active);
      assert !Before(ts[pos + 1], ts[pos]);
      assert mem'[next].time == mem[next].time;
    } else {
      assert next == Null && k <= pos && pos' == |active'|;
    }
    forall j | 0 <= j < pos'
      ensures Occurrences(fs, active'[j]) > 0
    {
      OccurrencesSnoc(fired, f, active'[j]);
      if j < k {
        assert active'[j] == w[j] == active[j];
      } else if j > k {
        assert active'[j] == w[j - 1] == active[j - 1];
      }
    }
  }

  /** Moving a due timer on by a positive interval lowers the weight. */
  lemma RescheduleWeight(mem: Heap, active: seq<Handle>, pos: nat, now: Timespec, mem': Heap, k: nat)
    requires InHeap(mem, active) && pos < |active| && Distinct(active) && mem'.Keys == mem.Keys
    requires var x := mem[active[pos]];
      x.time.nsec < NsPerSec && !Before(now, x.time) && x.nsecs > 0 &&
      mem'[active[pos]].time == AddNsecs(x.time, x.nsecs)
    requires k <= |active| - 1 && InHeap(mem', Insert(Remove(active, active[pos]), active[pos], k))
    requires forall h :: h in mem' && h != active[pos] ==> mem'[h].time == mem[h].time
    ensures Weight(Times(mem', Insert(Remove(active, active[pos]), active[pos], k)), now)
          < Weight(Times(mem, active), now)
  {
    var t := active[pos];
    var w := Without(active, pos);
    IndexOfDistinct(active, pos);
    RemoveContents(active, t);
    var ts := Times(mem, active);
    TimesWithout(mem, active, pos);
    TimesFrame(mem, mem', w);
    TimesInsert(mem', w, t, k);
    WeightWithout(ts, pos, now);
    WeightInsert(Without(ts, pos), mem'[t].time, k, now);
    DueHasSlack(mem[t].time, now);
  }

  /**
   * One iteration of tmr_run on a due one-shot timer `t` at the cursor:
   * fire it, then cancel it (the effect of tmr_cancel, from `mem` to
   * `mem'`). The invariant holds with the cursor on `t`'s old successor,
   * at the same position of a list one shorter.
   */
  lemma RetireIteration(m0: Heap, a0: seq<Handle>, f0: seq<Handle>, now: Timespec,
                        mem: Heap, timers: int, active: seq<Handle>, freeTimers: int, free: seq<Handle>,
                        fired: seq<Firing>, pos: nat, t: Handle,
                        mem': Heap, active': seq<Handle>, free': seq<Handle>)
    requires Linked(mem, timers, active) && Sorted(mem, active)
    requires forall h :: h in mem ==> mem[h].time.nsec < NsPerSec
    requires RunInv(m0, a0, f0, now, mem, active, free, fired, pos, t)
    requires t in mem && !Before(now, mem[t].time) && !mem[t].periodic
    requires active' == Remove(active, t) && free' == [t] + free && mem'.Keys == mem.Keys
    requires forall h :: h in mem' ==> SameFields(mem'[h], mem[h])
    ensures RunInv(m0, a0, f0, now, mem', active', free',
                   fired + [Firing(t, mem[t].proc, mem[t].clientData, mem[t].time)], pos, mem[t].next)
    ensures |active'| == |active| - 1
  {
    var f := Firing(t, mem[t].proc, mem[t].clientData, mem[t].time);
    assert Forward(mem, timers, active);
    FireHistory(m0, a0, f0, now, mem, active, free, fired, pos, t);
    RetireStore(m0, f0, mem, free, fired, f, mem');
    RetireCursor(mem, timers, active, fired, pos, t, f, mem', active');
    RemoveContents(active, t);
  }

  /**
   * One iteration of tmr_run on a due periodic timer `t` at the cursor:
   * fire it, then move its deadline on by its interval and re-sort it to
   * position `k` of the list without it (from `mem` to `mem'`). The
   * invariant holds with the cursor on `t`'s old successor, one position
   * further when `t` went back in front of it. Otherwise the interval was
   * positive, and the weight falls.
   */
  lemma RescheduleIteration(m0: Heap, a0: seq<Handle>, f0: seq<Handle>, now: Timespec,
                            mem: Heap, timers: int, active: seq<Handle>, freeTimers: int, free: seq<Handle>,
                            fired: seq<Firing>, pos: nat, t: Handle,
                            mem': Heap, active': seq<Handle>, k: nat)
    requires Linked(mem, timers, active) && Sorted(mem, active)
    requires forall h :: h in mem ==> mem[h].time.nsec < NsPerSec
    requires RunInv(m0, a0, f0, now, mem, active, free, fired, pos, t)
    requires t in mem && !Before(now, mem[t].time) && mem[t].periodic
    requires Retimed(mem, active, t, AddNsecs(mem[t].time, mem[t].nsecs), mem', active')
    requires InHeap(mem', active')
    requires k == InsertPos(Times(mem, Remove(active, t)), AddNsecs(mem[t].time, mem[t].nsecs))
    ensures RunInv(m0, a0, f0, now, mem', active', free,
                   fired + [Firing(t, mem[t].proc, mem[t].clientData, mem[t].time)],
                   if k <= pos then pos + 1 else pos, mem[t].next)
    ensures |active'| == |active|
    ensures k > pos ==> Weight(Times(mem', active'), now) < Weight(Times(mem, active), now)
  {
    var f := Firing(t, mem[t].proc, mem[t].clientData, mem[t].time);
    assert Forward(mem, timers, active);
    FireHistory(m0, a0, f0, now, mem, active, free, fired, pos, t);
    RescheduleStore(m0, f0, mem, free, fired, f, mem');
    RescheduleCursor(mem, timers, active, fired, pos, t, f, mem', active', k);
    if mem[t].nsecs < 0 {
      IndexOfDistinct(active, pos);
      TimesWithout(mem, active, pos);
      BackwardStaysBehind(Times(mem, active), pos, mem[t].nsecs);
    }
    if k > pos {
      RescheduleWeight(mem, active, pos, now, mem', k);
    }
    RemoveContents(active, t);
    InsertContents(Remove(active, t), t, k);
    forall h | h in active' && h in mem' && mem'[h].periodic && !Before(now, mem'[h].time)
      ensures mem'[h].nsecs != 0
    {
      if h != t {
        assert mem'[h].time == mem[h].time;
      }
    }
  }

  /**
   * When the loop stops, every active timer has fired in this pass or is
   * not due; and nothing fired exactly when the list was empty or its head
   * was not due.
   */
  lemma RunEnd(m0: Heap, a0: seq<Handle>, f0: seq<Handle>, now: Timespec,
               mem: Heap, timers: int, active: seq<Handle>, freeTimers: int, free: seq<Handle>,
               fired: seq<Firing>, pos: nat, t: int)
    requires InHeap(m0, a0)
    requires Consistent(mem, timers, active, freeTimers, free)
    requires RunInv(m0, a0, f0, now, mem, active, free, fired, pos, t)
    requires t == Null || (t in mem && Before(now, mem[t].time))
    ensures forall h :: h in active ==> Occurrences(fired, h) > 0 || Before(now, mem[h].time)
    ensures fired == [] <==> a0 == [] || Before(now, m0[a0[0]].time)
  {
    assert Forward(mem, timers, active);
    var ts := Times(mem, active);
    forall h | h in active
      ensures Occurrences(fired, h) > 0 || Before(now, mem[h].time)
    {
      var j := IndexOf(active, h);
      if j >= pos {
        assert !Before(ts[j], ts[pos]);
      }
    }
    if fired != [] {
      assert fired[..0] == [];
      assert !Before(now, fired[0].expiry);
    }
  }
}
