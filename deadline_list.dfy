/**
 * The shapes behind the timer manager's two intrusive lists.
 *
 * A timer record lives in a heap (`Heap`, a map from addresses to records)
 * and carries `prev`/`next` links, as the C struct does. A list is
 * described by a ghost sequence of addresses: Linked says the links of a
 * doubly-linked list (the active list) spell out that sequence, Stacked
 * says the same of a singly-linked stack whose `prev` links are NULL (the
 * free list). The order of the active list is stated on the sequence of
 * its deadlines (Times), so that the sorting facts are facts about
 * sequences of timespecs.
 */
module DeadlineList {
  import opened TimeSpec

  /** The address of a timer record. */
  type Handle = nat

  /** The NULL pointer; every real address is a Handle, so never Null. */
  const Null: int := -1

  /** The callback (`TimerProc*`) and its argument (`TimerClientData`), opaque to the manager. */
  type ProcId = nat
  type ClientData = nat

  /** A `Timer` record: the fields tmr_create fills in, plus the two links. */
  datatype Timer = Timer(proc: ProcId, clientData: ClientData, nsecs: Int64, periodic: bool,
                         time: Timespec, prev: int, next: int)

  type Heap = map<Handle, Timer>

  /** The fields a timer is created with, other than its deadline. */
  predicate SamePayload(a: Timer, b: Timer)
  {
    a.proc == b.proc && a.clientData == b.clientData && a.nsecs == b.nsecs && a.periodic == b.periodic
  }

  /** The fields other than the links. */
  predicate SameFields(a: Timer, b: Timer)
  {
    SamePayload(a, b) && a.time == b.time
  }

  ghost predicate Distinct(s: seq<Handle>)
  {
    forall i, j :: 0 <= i < j < |s| ==> s[i] != s[j]
  }

  ghost predicate InHeap(mem: Heap, s: seq<Handle>)
  {
    forall i :: 0 <= i < |s| ==> s[i] in mem
  }

  /** `head` and the `next` links walk through exactly `s`, then reach NULL. */
  ghost predicate Forward(mem: Heap, head: int, s: seq<Handle>)
  {
    Distinct(s) && InHeap(mem, s) &&
    head == (if s == [] then Null else s[0]) &&
    forall i :: 0 <= i < |s| ==> mem[s[i]].next == if i + 1 < |s| then s[i + 1] else Null
  }

  /** A doubly-linked list: the `prev` links walk `s` backward. */
  ghost predicate Linked(mem: Heap, head: int, s: seq<Handle>)
  {
    Forward(mem, head, s) &&
    forall i :: 0 <= i < |s| ==> mem[s[i]].prev == if i == 0 then Null else s[i - 1]
  }

  /** A stack linked through `next` alone, every `prev` NULL. */
  ghost predicate Stacked(mem: Heap, head: int, s: seq<Handle>)
  {
    Forward(mem, head, s) &&
    forall i :: 0 <= i < |s| ==> mem[s[i]].prev == Null
  }

  /** The deadlines of the records at `s`, in list order. */
  ghost function Times(mem: Heap, s: seq<Handle>): (ts: seq<Timespec>)
    requires InHeap(mem, s)
    ensures |ts| == |s|
    ensures forall i :: 0 <= i < |s| ==> ts[i] == mem[s[i]].time
  {
    seq(|s|, i requires 0 <= i < |s| => mem[s[i]].time)
  }

  /** Non-decreasing under the C code's deadline comparison. */
  ghost predicate SortedTimes(ts: seq<Timespec>)
  {
    forall i, j :: 0 <= i < j < |ts| ==> !Before(ts[j], ts[i])
  }

  ghost predicate Sorted(mem: Heap, s: seq<Handle>)
  {
    InHeap(mem, s) && SortedTimes(Times(mem, s))
  }

  /**
   * Where list_add puts a timer with deadline `tm`: before the first entry
   * whose deadline is strictly later, so after every entry whose deadline
   * is not later, including the equal ones.
   */
  function InsertPos(ts: seq<Timespec>, tm: Timespec): (k: nat)
    ensures k <= |ts|
    ensures forall i :: 0 <= i < k ==> !Before(tm, ts[i])
    ensures k < |ts| ==> Before(tm, ts[k])
  {
    if ts == [] || Before(tm, ts[0]) then 0 else 1 + InsertPos(ts[1..], tm)
  }

  function Insert<T>(s: seq<T>, x: T, k: nat): (r: seq<T>)
    requires k <= |s|
    ensures |r| == |s| + 1 && r[k] == x
    ensures forall i :: 0 <= i < k ==> r[i] == s[i]
    ensures forall i :: k < i < |r| ==> r[i] == s[i - 1]
  {
    s[..k] + [x] + s[k..]
  }

  /** The sequence with the entry at `i` deleted, the rest in their order. */
  function Without<T>(s: seq<T>, i: nat): (r: seq<T>)
    requires i < |s|
    ensures |r| == |s| - 1
    ensures forall j :: 0 <= j < i ==> r[j] == s[j]
    ensures forall j :: i <= j < |r| ==> r[j] == s[j + 1]
  {
    s[..i] + s[i + 1..]
  }

  function IndexOf(s: seq<Handle>, x: Handle): (i: nat)
    requires x in s
    ensures i < |s| && s[i] == x
    ensures forall j :: 0 <= j < i ==> s[j] != x
  {
    if s[0] == x then 0 else 1 + IndexOf(s[1..], x)
  }

  /** list_remove's effect on the sequence: `x` deleted, the others in order. */
  function Remove(s: seq<Handle>, x: Handle): (r: seq<Handle>)
    requires x in s
  {
    Without(s, IndexOf(s, x))
  }

  lemma IndexOfDistinct(s: seq<Handle>, i: nat)
    requires Distinct(s) && i < |s|
    ensures IndexOf(s, s[i]) == i
  {
  }

  /** Deleting one occurrence takes exactly that element out. */
  lemma RemoveContents(s: seq<Handle>, x: Handle)
    requires x in s && Distinct(s)
    ensures multiset(Remove(s, x)) == multiset(s) - multiset{x}
    ensures Distinct(Remove(s, x)) && x !in Remove(s, x)
    ensures forall y :: y in Remove(s, x) <==> y in s && y != x
  {
    var i := IndexOf(s, x);
    var r := Remove(s, x);
    assert s == s[..i] + [x] + s[i + 1..];
    assert r == s[..i] + s[i + 1..];
    forall a, b | 0 <= a < b < |r|
      ensures r[a] != r[b]
    {
      assert r[a] == s[if a < i then a else a + 1];
      assert r[b] == s[if b < i then b else b + 1];
    }
    forall j | 0 <= j < |r|
      ensures r[j] != x
    {
      assert r[j] == s[if j < i then j else j + 1];
    }
  }

  /** Inserting takes exactly the new element in. */
  lemma InsertContents(s: seq<Handle>, x: Handle, k: nat)
    requires k <= |s| && Distinct(s) && x !in s
    ensures multiset(Insert(s, x, k)) == multiset(s) + multiset{x}
    ensures Distinct(Insert(s, x, k))
    ensures forall y :: y in Insert(s, x, k) <==> y in s || y == x
  {
    assert s == s[..k] + s[k..];
    assert Insert(s, x, k) == s[..k] + [x] + s[k..];
    forall i, j | 0 <= i < j < |s| + 1
      ensures Insert(s, x, k)[i] != Insert(s, x, k)[j]
    {
      var r := Insert(s, x, k);
      if i == k {
        assert r[j] == s[j - 1];
      } else if j == k {
        assert r[i] == s[i];
      }
    }
  }

  /**
   * Inserting at InsertPos keeps a sorted sequence sorted, with the new
   * deadline after every entry that is not later than it (so equal
   * deadlines keep their insertion order) and before every entry that is.
   */
  lemma {:induction false} InsertSorted(ts: seq<Timespec>, tm: Timespec)
    requires SortedTimes(ts)
    ensures var r := Insert(ts, tm, InsertPos(ts, tm));
      SortedTimes(r) &&
      (forall i :: 0 <= i < InsertPos(ts, tm) ==> !Before(tm, r[i])) &&
      (forall i :: InsertPos(ts, tm) < i < |r| ==> Before(tm, r[i]))
  {
    var k := InsertPos(ts, tm);
    var r := Insert(ts, tm, k);
    forall i | k < i < |r|
      ensures Before(tm, r[i])
    {
      assert !Before(ts[i - 1], ts[k]);
    }
  }

  /** Deleting any entry keeps a sorted sequence sorted. */
  lemma RemoveSorted(ts: seq<Timespec>, i: nat)
    requires SortedTimes(ts) && i < |ts|
    ensures SortedTimes(Without(ts, i))
  {
  }

  /** The deadlines of a list depend only on its records' deadlines. */
  lemma TimesFrame(m1: Heap, m2: Heap, s: seq<Handle>)
    requires InHeap(m1, s) && InHeap(m2, s)
    requires forall i :: 0 <= i < |s| ==> m1[s[i]].time == m2[s[i]].time
    ensures Times(m1, s) == Times(m2, s)
  {
  }

  lemma TimesInsert(mem: Heap, s: seq<Handle>, x: Handle, k: nat)
    requires InHeap(mem, s) && x in mem && k <= |s|
    ensures InHeap(mem, Insert(s, x, k))
    ensures Times(mem, Insert(s, x, k)) == Insert(Times(mem, s), mem[x].time, k)
  {
  }

  lemma TimesWithout(mem: Heap, s: seq<Handle>, i: nat)
    requires InHeap(mem, s) && i < |s|
    ensures InHeap(mem, Without(s, i))
    ensures Times(mem, Without(s, i)) == Without(Times(mem, s), i)
  {
  }

  /** The links of the record at position `i` of a linked list. */
  lemma LinkedAt(mem: Heap, head: int, s: seq<Handle>, i: nat)
    requires Linked(mem, head, s) && i < |s|
    ensures s[i] in mem
    ensures mem[s[i]].next == if i + 1 < |s| then s[i + 1] else Null
    ensures mem[s[i]].prev == if i == 0 then Null else s[i - 1]
  {
    assert Forward(mem, head, s);
  }

  /** The `next` link of the record at position `i` of a forward list. */
  lemma ForwardAt(mem: Heap, head: int, s: seq<Handle>, i: nat)
    requires Forward(mem, head, s) && i < |s|
    ensures s[i] in mem
    ensures mem[s[i]].next == if i + 1 < |s| then s[i + 1] else Null
  {
  }

  /**
   * `m1`, `head1` and `r` are the list `s` in `m0` with `t` linked in at
   * position `k`: a sorted doubly-linked list spelling `r`, which is `s`
   * with `t` inserted there; no record changed other than in its links,
   * and records on neither list not at all.
   */
  ghost predicate LinkedIn(m0: Heap, s: seq<Handle>, t: Handle, k: nat, m1: Heap, head1: int, r: seq<Handle>)
  {
    k <= |s| && r == Insert(s, t, k) &&
    Linked(m1, head1, r) && Sorted(m1, r) &&
    m1.Keys == m0.Keys &&
    (forall h :: h in m1 ==> SameFields(m1[h], m0[h])) &&
    (forall h :: h in m1 && h != t && h !in s ==> m1[h] == m0[h])
  }

  /** The links, record by record, after `t` is linked in at position `k`. */
  lemma SpliceInLinks(m0: Heap, m1: Heap, head0: int, s: seq<Handle>, t: Handle, k: nat, r: seq<Handle>)
    requires Linked(m0, head0, s) && t in m0 && t !in s && k <= |s| && r == Insert(s, t, k)
    requires m1.Keys == m0.Keys
    requires m1[t] == m0[t].(prev := if k == 0 then Null else s[k - 1], next := if k < |s| then s[k] else Null)
    requires k > 0 ==> m1[s[k - 1]] == m0[s[k - 1]].(next := t)
    requires k < |s| ==> m1[s[k]] == m0[s[k]].(prev := t)
    requires forall h :: h in m0 && h != t && (k == 0 || h != s[k - 1]) && (k == |s| || h != s[k]) ==> m1[h] == m0[h]
    ensures InHeap(m1, r)
    ensures forall i :: 0 <= i < |r| ==> m1[r[i]].next == if i + 1 < |r| then r[i + 1] else Null
    ensures forall i :: 0 <= i < |r| ==> m1[r[i]].prev == if i == 0 then Null else r[i - 1]
  {
    forall i | 0 <= i < |r|
      ensures r[i] in m1
      ensures m1[r[i]].next == if i + 1 < |r| then r[i + 1] else Null
      ensures m1[r[i]].prev == if i == 0 then Null else r[i - 1]
    {
      if i < k {
        var x := s[i];
        assert r[i] == x && r[i + 1] == if i + 1 == k then t else s[i + 1];
        LinkedAt(m0, head0, s, i);
        assert i > 0 ==> r[i - 1] == s[i - 1];
      } else if i > k {
        var x := s[i - 1];
        assert r[i] == x && r[i - 1] == if i - 1 == k then t else s[i - 2];
        LinkedAt(m0, head0, s, i - 1);
        assert i + 1 < |r| ==> r[i + 1] == s[i];
      }
    }
  }

  /**
   * The heap after list_add's link writes for `t` at position `k` of `s`:
   * the predecessor's `next` (if any) to `t`, `t`'s own links to its two
   * neighbours, the successor's `prev` (if any) to `t`, in that order.
   */
  function LinkAt(m0: Heap, s: seq<Handle>, t: Handle, k: nat): (m1: Heap)
    requires t in m0 && InHeap(m0, s) && k <= |s|
    ensures m1.Keys == m0.Keys
  {
    var m := if k > 0 then m0[s[k - 1] := m0[s[k - 1]].(next := t)] else m0;
    var m := m[t := m[t].(prev := if k == 0 then Null else s[k - 1], next := if k < |s| then s[k] else Null)];
    if k < |s| then m[s[k] := m[s[k]].(prev := t)] else m
  }

  /**
   * Linking `t` in at its sorted position `k`: the new record points at the
   * two neighbours, the neighbours point at it, no other record changes.
   * The result is the list with `t` inserted, still sorted; only links
   * changed.
   */
  lemma SpliceIn(m0: Heap, head0: int, s: seq<Handle>, t: Handle, k: nat)
    requires Linked(m0, head0, s) && Sorted(m0, s) && t in m0 && t !in s
    requires k == InsertPos(Times(m0, s), m0[t].time)
    ensures LinkedIn(m0, s, t, k, LinkAt(m0, s, t, k), if k == 0 then t else head0, Insert(s, t, k))
  {
    assert Forward(m0, head0, s);
    var m1, head1 := LinkAt(m0, s, t, k), if k == 0 then t else head0;
    if 0 < k < |s| {
      LinkedAt(m0, head0, s, k);
      assert s[k - 1] != s[k];
    }
    var r := Insert(s, t, k);
    InsertContents(s, t, k);
    SpliceInLinks(m0, m1, head0, s, t, k, r);
    assert head1 == r[0];
    assert Forward(m1, head1, r);
    assert Linked(m1, head1, r);
    InsertSorted(Times(m0, s), m0[t].time);
    TimesInsert(m0, s, t, k);
    TimesFrame(m0, m1, r);
    assert Sorted(m1, r);
  }

  /** The links, record by record, after the entry at `i` is unlinked. */
  lemma SpliceOutLinks(m0: Heap, m1: Heap, head0: int, s: seq<Handle>, i: nat, r: seq<Handle>)
    requires Linked(m0, head0, s) && i < |s| && r == Without(s, i)
    requires m1.Keys == m0.Keys
    requires i > 0 ==> m1[s[i - 1]] == m0[s[i - 1]].(next := m0[s[i]].next)
    requires i + 1 < |s| ==> m1[s[i + 1]] == m0[s[i + 1]].(prev := m0[s[i]].prev)
    requires forall h :: h in m0 && (i == 0 || h != s[i - 1]) && (i + 1 == |s| || h != s[i + 1]) ==> m1[h] == m0[h]
    ensures InHeap(m1, r)
    ensures forall j :: 0 <= j < |r| ==> m1[r[j]].next == if j + 1 < |r| then r[j + 1] else Null
    ensures forall j :: 0 <= j < |r| ==> m1[r[j]].prev == if j == 0 then Null else r[j - 1]
  {
    LinkedAt(m0, head0, s, i);
    forall j | 0 <= j < |r|
      ensures r[j] in m1
      ensures m1[r[j]].next == if j + 1 < |r| then r[j + 1] else Null
      ensures m1[r[j]].prev == if j == 0 then Null else r[j - 1]
    {
      if j < i {
        var x := s[j];
        assert r[j] == x;
        assert j + 1 < |r| ==> r[j + 1] == if j + 1 < i then s[j + 1] else s[j + 2];
        assert j > 0 ==> r[j - 1] == s[j - 1];
        LinkedAt(m0, head0, s, j);
      } else {
        var x := s[j + 1];
        assert r[j] == x;
        assert j + 1 < |r| ==> r[j + 1] == s[j + 2];
        assert j > 0 ==> r[j - 1] == if j - 1 < i then s[j - 1] else s[j];
        LinkedAt(m0, head0, s, j + 1);
      }
    }
  }

  /**
   * The heap after list_remove's link writes for the entry at `i` of `s`:
   * the predecessor's `next` (if any) to the entry's successor, then the
   * successor's `prev` (if any) to the entry's predecessor.
   */
  function UnlinkAt(m0: Heap, s: seq<Handle>, i: nat): (m1: Heap)
    requires InHeap(m0, s) && i < |s|
    ensures m1.Keys == m0.Keys
  {
    var m := if i > 0 then m0[s[i - 1] := m0[s[i - 1]].(next := m0[s[i]].next)] else m0;
    if i + 1 < |s| then m[s[i + 1] := m[s[i + 1]].(prev := m0[s[i]].prev)] else m
  }

  /**
   * Unlinking the entry at `i`: its predecessor (or the head) now points at
   * its successor and back, no other record changes. The result is the list
   * without that entry; only links changed.
   */
  lemma SpliceOut(m0: Heap, head0: int, s: seq<Handle>, i: nat)
    requires Linked(m0, head0, s) && i < |s|
    ensures var m1 := UnlinkAt(m0, s, i);
      Linked(m1, if i == 0 then m0[s[i]].next else head0, Without(s, i)) &&
      (forall h :: h in m1 ==> SameFields(m1[h], m0[h])) &&
      (forall h :: h in m1 && h !in s ==> m1[h] == m0[h]) &&
      m1[s[i]] == m0[s[i]] &&
      Times(m1, Without(s, i)) == Without(Times(m0, s), i)
  {
    assert Forward(m0, head0, s);
    var m1, head1 := UnlinkAt(m0, s, i), if i == 0 then m0[s[i]].next else head0;
    var r := Without(s, i);
    LinkedAt(m0, head0, s, i);
    if 0 < i && i + 1 < |s| {
      assert s[i - 1] != s[i + 1];
    }
    assert Distinct(r);
    SpliceOutLinks(m0, m1, head0, s, i, r);
    assert head1 == if r == [] then Null else r[0];
    assert Forward(m1, head1, r);
    assert Linked(m1, head1, r);
    TimesWithout(m0, s, i);
    TimesFrame(m0, m1, r);
  }

  /**
   * The state list_add leaves: `t` linked in (LinkAt) before the first
   * entry of `s0` whose deadline is strictly later than its own; the head
   * moves to `t` when that is the first entry.
   */
  ghost predicate AddedAt(m0: Heap, h0: int, s0: seq<Handle>, t: Handle, m1: Heap, h1: int, s1: seq<Handle>)
  {
    t in m0 && InHeap(m0, s0) &&
    var k := InsertPos(Times(m0, s0), m0[t].time);
    m1 == LinkAt(m0, s0, t, k) && h1 == (if k == 0 then t else h0) && s1 == Insert(s0, t, k)
  }

  /** LinkAt writes only links. */
  lemma LinkAtFields(m0: Heap, s: seq<Handle>, t: Handle, k: nat)
    requires t in m0 && InHeap(m0, s) && k <= |s|
    ensures forall h :: h in m0 ==> SameFields(LinkAt(m0, s, t, k)[h], m0[h])
  {
  }

  /** UnlinkAt writes only links. */
  lemma UnlinkAtFields(m0: Heap, s: seq<Handle>, i: nat)
    requires InHeap(m0, s) && i < |s|
    ensures forall h :: h in m0 ==> SameFields(UnlinkAt(m0, s, i)[h], m0[h])
  {
  }

  /**
   * The state list_remove leaves: `t` unlinked (UnlinkAt); the head moves
   * to `t`'s successor when `t` was the head.
   */
  ghost predicate RemovedAt(m0: Heap, h0: int, s0: seq<Handle>, t: Handle, m1: Heap, h1: int, s1: seq<Handle>)
  {
    t in s0 && InHeap(m0, s0) &&
    var i := IndexOf(s0, t);
    m1 == UnlinkAt(m0, s0, i) && h1 == (if i == 0 then m0[t].next else h0) && s1 == Remove(s0, t)
  }

  /** Deleting an entry just inserted gives back the sequence. */
  lemma RemoveInsert(s: seq<Handle>, t: Handle, k: nat)
    requires Distinct(s) && t !in s && k <= |s|
    ensures Remove(Insert(s, t, k), t) == s
  {
    var r := Insert(s, t, k);
    InsertContents(s, t, k);
    IndexOfDistinct(r, k);
    assert Without(r, k) == s;
  }

  /**
   * list_remove undoes list_add: unlinking `t` from where it was linked in
   * gives every other record back its old links.
   */
  lemma UnlinkUndoesLink(m0: Heap, head0: int, s: seq<Handle>, t: Handle, k: nat)
    requires Linked(m0, head0, s) && t in m0 && t !in s && k <= |s|
    ensures InHeap(m0, Insert(s, t, k))
    ensures var m2 := UnlinkAt(LinkAt(m0, s, t, k), Insert(s, t, k), k);
      m2.Keys == m0.Keys && forall h :: h in m0 && h != t ==> m2[h] == m0[h]
  {
    assert Forward(m0, head0, s);
    var r := Insert(s, t, k);
    var m1 := LinkAt(m0, s, t, k);
    if 0 < k < |s| {
      LinkedAt(m0, head0, s, k - 1);
      LinkedAt(m0, head0, s, k);
      assert s[k - 1] != s[k];
    } else if 0 < k {
      LinkedAt(m0, head0, s, k - 1);
    } else if k < |s| {
      LinkedAt(m0, head0, s, k);
    }
    assert k > 0 ==> r[k - 1] == s[k - 1];
    assert k + 1 < |r| ==> r[k + 1] == s[k];
  }

  /** A list stays linked when none of its records' links changed. */
  lemma LinkedFrame(m1: Heap, m2: Heap, head: int, s: seq<Handle>)
    requires Linked(m1, head, s)
    requires forall i :: 0 <= i < |s| ==> s[i] in m2 && m2[s[i]].prev == m1[s[i]].prev && m2[s[i]].next == m1[s[i]].next
    ensures Linked(m2, head, s)
  {
  }

  /** A list's links are untouched when none of its records changed. */
  lemma StackedFrame(m1: Heap, m2: Heap, head: int, s: seq<Handle>)
    requires Stacked(m1, head, s)
    requires forall i :: 0 <= i < |s| ==> s[i] in m2 && m2[s[i]] == m1[s[i]]
    ensures Stacked(m2, head, s)
  {
  }

  /** Pushing a record with a NULL `prev` on a stack. */
  lemma StackPush(m1: Heap, m2: Heap, head: int, s: seq<Handle>, t: Handle)
    requires Stacked(m1, head, s) && t !in s
    requires t in m2 && m2[t].prev == Null && m2[t].next == head
    requires forall i :: 0 <= i < |s| ==> s[i] in m2 && m2[s[i]] == m1[s[i]]
    ensures Stacked(m2, t, [t] + s)
  {
    assert Forward(m1, head, s);
    var r := [t] + s;
    forall i | 0 <= i < |r|
      ensures r[i] in m2 && m2[r[i]].prev == Null
      ensures m2[r[i]].next == if i + 1 < |r| then r[i + 1] else Null
    {
      if i > 0 {
        assert r[i] == s[i - 1];
        assert i + 1 < |r| ==> r[i + 1] == s[i];
        ForwardAt(m1, head, s, i - 1);
        assert m2[s[i - 1]] == m1[s[i - 1]];
      } else {
        assert s != [] ==> r[1] == s[0];
      }
    }
    assert Forward(m2, t, r);
  }

  /** Popping the top of a stack: the rest is the stack its `next` link heads. */
  lemma StackPop(m: Heap, head: int, s: seq<Handle>)
    requires Stacked(m, head, s) && s != []
    ensures head == s[0] && s[0] in m && s[0] !in s[1..]
    ensures Stacked(m, m[s[0]].next, s[1..])
  {
    assert Forward(m, head, s);
    var r := s[1..];
    forall i | 0 <= i < |r|
      ensures r[i] in m && m[r[i]].prev == Null
      ensures m[r[i]].next == if i + 1 < |r| then r[i + 1] else Null
    {
      assert r[i] == s[i + 1];
      assert i + 1 < |r| ==> r[i + 1] == s[i + 2];
      ForwardAt(m, head, s, i + 1);
    }
    ForwardAt(m, head, s, 0);
    assert m[s[0]].next == if r == [] then Null else r[0];
    assert Forward(m, m[s[0]].next, r);
  }
}
