/** Robust futex lists: registering the list head, and the walk at thread
    exit that marks every lock the dying thread still held as owner-died,
    following the exit-time walk of the Linux kernel (kernel/futex/core.c). */
module RobustList {
  import opened Ints
  import opened Errors
  import opened Futex

  /** At most this many entries are processed before the walk gives up. */
  const ROBUST_LIST_LIMIT: nat := 2048
  /** `size_of::<robust_list_head>()`: next pointer, futex offset, pending pointer. */
  const ROBUST_LIST_HEAD_SIZE: nat := 24

  /** The kernel's copy of a user `robust_list_head`. */
  datatype RobustListHead = RobustListHead(next: u64, futexOffset: i64, pending: u64)

  /** User memory holding list entries: the `next` pointer stored at each
      entry address that translates. */
  type EntryMemory = map<u64, u64>

  /** `sys_set_robust_list`: a wrong size is EINVAL and changes nothing;
      otherwise only the head address is stored. */
  function SetRobustList(td: ThreadData, head: u64, size: nat): (r: (ThreadData, Result<int>))
    ensures size != ROBUST_LIST_HEAD_SIZE ==> r == (td, Err(EINVAL))
    ensures size == ROBUST_LIST_HEAD_SIZE ==>
              r.1 == Ok(0) && r.0.robustListHead == head && r.0.futexBitset == td.futexBitset
  {
    if size != ROBUST_LIST_HEAD_SIZE then (td, Err(EINVAL))
    else (td.(robustListHead := head), Ok(0))
  }

  /** What `sys_get_robust_list` reports: the stored head and the head
      size. A zero tid names the caller; another tid is looked up; the two
      out-pointers must be writable, the head one first. */
  datatype UserWrite = UserWrite(addr: nat, value: nat)

  function GetRobustList(threads: map<nat, ThreadData>, current: nat, tid: u32,
                         writable: set<nat>, headPtr: nat, sizePtr: nat): (r: (seq<UserWrite>, Result<int>))
    requires current in threads
    ensures r.1.Ok? <==> (tid == 0 || tid in threads) && headPtr in writable && sizePtr in writable
    ensures r.1.Ok? ==>
              var td := threads[if tid == 0 then current else tid];
              r == ([UserWrite(headPtr, td.robustListHead), UserWrite(sizePtr, ROBUST_LIST_HEAD_SIZE)], Ok(0))
    ensures tid != 0 && tid !in threads ==> r == ([], Err(ESRCH))
  {
    if tid != 0 && tid !in threads then ([], Err(ESRCH))
    else
      var td := threads[if tid == 0 then current else tid];
      if headPtr !in writable then ([], Err(EFAULT))
      else if sizePtr !in writable then ([UserWrite(headPtr, td.robustListHead)], Err(EFAULT))
      else ([UserWrite(headPtr, td.robustListHead), UserWrite(sizePtr, ROBUST_LIST_HEAD_SIZE)], Ok(0))
  }

  /** `checked_add_signed`: the entry address moved by a signed offset, or
      None when the result leaves the unsigned 64-bit range. */
  function CheckedAddSigned(entry: u64, offset: i64): (r: Option<u64>)
    ensures r.Some? <==> 0 <= entry + offset < U64_LIMIT
    ensures r.Some? ==> r.value == entry + offset
  {
    var a := entry + offset;
    if 0 <= a < U64_LIMIT then Some(a) else None
  }

  /** `handle_futex_death`: the futex word sits at entry + offset. An
      overflowing address is EINVAL; a key with no futex is a successful
      no-op; otherwise the futex is marked owner-died and exactly one waiter
      (the front one) is woken. */
  function HandleFutexDeath(t: FutexTable, aspace: nat, entry: u64, offset: i64): (r: Step)
    ensures CheckedAddSigned(entry, offset).None? ==> r == Step(t, Err(EINVAL))
    ensures CheckedAddSigned(entry, offset).Some? ==>
              var key := FutexKey(aspace, entry + offset);
              && r.ret == Ok(0)
              && (key !in t ==> r.table == t)
              && (key in t ==>
                    && r.table == t[key := Futex(if t[key].queue == [] then [] else t[key].queue[1..], true)]
                    && |r.table[key].queue| == if t[key].queue == [] then 0 else |t[key].queue| - 1)
  {
    match CheckedAddSigned(entry, offset)
    case None => Step(t, Err(EINVAL))
    case Some(addr) =>
      var key := FutexKey(aspace, addr);
      if key !in t then Step(t, Ok(0))
      else
        var (_, rest) := NotifyOneLoop(t[key].queue, 1);
        Step(t[key := Futex(rest, true)], Ok(0))
  }

  /** The observable result of a walk: the table afterwards, the entries
      whose `next` was read (in order), the entries handed to the death
      handler (in order), and the outcome. */
  datatype Walk = Walk(table: FutexTable, visited: seq<u64>, notified: seq<u64>, result: Result<int>)

  /** The loop of `exit_robust_list` from cursor `entry` with `limit`
      iterations left before ELOOP. `headAddr` is the address of the head's
      embedded list node, where a well-formed list closes. */
  function WalkFrom(t: FutexTable, aspace: nat, mem: EntryMemory, headAddr: u64, entry: u64,
                    offset: i64, pending: u64, limit: nat): (w: Walk)
    requires 1 <= limit
    ensures |w.visited| <= limit
    ensures pending !in w.notified
    ensures forall e :: e in w.notified ==> e in w.visited
    ensures w.visited != [] ==> w.visited[0] == entry
    ensures entry == headAddr ==> w == Walk(t, [], [], Ok(0))
    ensures w.result.Ok? || w.result.error in {EFAULT, EINVAL, ELOOP}
    ensures w.result == Err(ELOOP) ==> |w.visited| == limit
    ensures IsChain(mem, headAddr, w.visited)
    ensures w.result.Ok? ==>
              || (entry == headAddr && w.visited == [])
              || (w.visited != [] && mem[w.visited[|w.visited| - 1]] == headAddr)
    decreases limit
  {
    if entry == headAddr then Walk(t, [], [], Ok(0))
    else if entry !in mem then Walk(t, [], [], Err(EFAULT))
    else
      var nextEntry := mem[entry];
      if entry != pending && HandleFutexDeath(t, aspace, entry, offset).ret.Err? then
        Walk(t, [entry], [entry], Err(EINVAL))
      else
        var t1 := if entry != pending then HandleFutexDeath(t, aspace, entry, offset).table else t;
        var n := if entry != pending then [entry] else [];
        if limit == 1 then Walk(t1, [entry], n, Err(ELOOP))
        else
          var rest := WalkFrom(t1, aspace, mem, headAddr, nextEntry, offset, pending, limit - 1);
          ChainCons(mem, headAddr, entry, rest.visited);
          Walk(rest.table, [entry] + rest.visited, n + rest.notified, rest.result)
  }

  /** `vs` were read by following next pointers: each translates, none is
      the head, and each one's next pointer is the one after it. */
  ghost predicate IsChain(mem: EntryMemory, headAddr: u64, vs: seq<u64>)
  {
    && (forall i :: 0 <= i < |vs| ==> vs[i] != headAddr && vs[i] in mem)
    && (forall i :: 0 <= i < |vs| - 1 ==> mem[vs[i]] == vs[i + 1])
  }

  lemma ChainCons(mem: EntryMemory, headAddr: u64, e: u64, vs: seq<u64>)
    requires e != headAddr && e in mem && IsChain(mem, headAddr, vs)
    requires vs != [] ==> mem[e] == vs[0]
    ensures IsChain(mem, headAddr, [e] + vs)
  {
    assert forall i :: 1 <= i < |[e] + vs| ==> ([e] + vs)[i] == vs[i - 1];
  }

  /** `exit_robust_list`: walk from head.next with the full budget. */
  function ExitRobustList(t: FutexTable, aspace: nat, mem: EntryMemory, headAddr: u64,
                          head: RobustListHead): (w: Walk)
    ensures |w.visited| <= ROBUST_LIST_LIMIT
    ensures head.pending !in w.notified
    ensures w.result == Err(ELOOP) ==> |w.visited| == ROBUST_LIST_LIMIT
    ensures w.result.Ok? ==>
              || (head.next == headAddr && w.visited == [])
              || (w.visited != [] && w.visited[|w.visited| - 1] in mem && mem[w.visited[|w.visited| - 1]] == headAddr)
  {
    WalkFrom(t, aspace, mem, headAddr, head.next, head.futexOffset, head.pending, ROBUST_LIST_LIMIT)
  }

  // -----------------------------------------------------------------------
  // Reference: a well-formed circular list and a fold over its entries

  /** `es` are the entries of a well-formed circular list starting at
      `first` and closing at `headAddr`: each entry translates, none is the
      head, and each entry's next pointer is the following entry (the last
      one's is the head). */
  ghost predicate IsRing(mem: EntryMemory, headAddr: u64, first: u64, es: seq<u64>)
  {
    && (forall i :: 0 <= i < |es| ==> es[i] != headAddr && es[i] in mem)
    && (es == [] ==> first == headAddr)
    && (es != [] ==>
          && es[0] == first
          && mem[es[|es| - 1]] == headAddr
          && forall i :: 0 <= i < |es| - 1 ==> mem[es[i]] == es[i + 1])
  }

  /** The death handler applied to a sequence of entries in order, skipping
      the pending one and stopping at the first error. */
  function ApplyDeaths(t: FutexTable, aspace: nat, es: seq<u64>, offset: i64, pending: u64): (w: Walk)
  {
    if es == [] then Walk(t, [], [], Ok(0))
    else if es[0] != pending && HandleFutexDeath(t, aspace, es[0], offset).ret.Err? then
      Walk(t, [es[0]], [es[0]], Err(EINVAL))
    else
      var t1 := if es[0] != pending then HandleFutexDeath(t, aspace, es[0], offset).table else t;
      var n := if es[0] != pending then [es[0]] else [];
      var rest := ApplyDeaths(t1, aspace, es[1..], offset, pending);
      Walk(rest.table, [es[0]] + rest.visited, n + rest.notified, rest.result)
  }

  /** How the loop reports running out of budget: a fold that succeeded
      becomes ELOOP, a failure stands. */
  function OutOfBudget(a: Walk): (w: Walk)
    ensures w.table == a.table && w.visited == a.visited && w.notified == a.notified
    ensures w.result == if a.result.Ok? then Err(ELOOP) else a.result
  {
    if a.result.Ok? then a.(result := Err(ELOOP)) else a
  }

  /** The walk over a well-formed ring is the fold over its entries when the
      ring is shorter than the remaining budget; otherwise it is the fold
      over the first `limit` entries, ending in ELOOP unless a handler
      failed first. */
  lemma {:induction false} WalkFollowsRing(t: FutexTable, aspace: nat, mem: EntryMemory, headAddr: u64,
                                           first: u64, es: seq<u64>, offset: i64, pending: u64, limit: nat)
    requires 1 <= limit
    requires IsRing(mem, headAddr, first, es)
    ensures var w := WalkFrom(t, aspace, mem, headAddr, first, offset, pending, limit);
            && (|es| < limit ==> w == ApplyDeaths(t, aspace, es, offset, pending))
            && (|es| >= limit ==> w == OutOfBudget(ApplyDeaths(t, aspace, es[..limit], offset, pending)))
    decreases limit
  {
    if es != [] {
      var e := es[0];
      if (e != pending && HandleFutexDeath(t, aspace, e, offset).ret.Err?) || limit == 1 {
        WalkLastStep(t, aspace, mem, headAddr, es, offset, pending, limit);
      } else {
        var t1 := if e != pending then HandleFutexDeath(t, aspace, e, offset).table else t;
        var tail := es[1..];
        if tail != [] {
          RingTail(mem, headAddr, es);
        }
        assert IsRing(mem, headAddr, mem[e], tail);
        WalkFollowsRing(t1, aspace, mem, headAddr, mem[e], tail, offset, pending, limit - 1);
        WalkInnerStep(t, aspace, mem, headAddr, es, offset, pending, limit);
      }
    }
  }

  /** The fold that the walk from the first of `es` with `limit` iterations
      left should agree with. */
  ghost predicate AgreesWithFold(w: Walk, t: FutexTable, aspace: nat, es: seq<u64>, offset: i64, pending: u64,
                                 limit: nat)
  {
    && (|es| < limit ==> w == ApplyDeaths(t, aspace, es, offset, pending))
    && (|es| >= limit ==> w == OutOfBudget(ApplyDeaths(t, aspace, es[..limit], offset, pending)))
  }

  /** A walk that stops at its first entry, by a handler error or by an
      exhausted budget. */
  lemma WalkLastStep(t: FutexTable, aspace: nat, mem: EntryMemory, headAddr: u64, es: seq<u64>,
                     offset: i64, pending: u64, limit: nat)
    requires 1 <= limit && es != [] && es[0] != headAddr && es[0] in mem
    requires (es[0] != pending && HandleFutexDeath(t, aspace, es[0], offset).ret.Err?) || limit == 1
    ensures AgreesWithFold(WalkFrom(t, aspace, mem, headAddr, es[0], offset, pending, limit),
                           t, aspace, es, offset, pending, limit)
  {
    var e := es[0];
    var cut := if |es| >= limit then es[..limit] else es;
    assert cut[0] == e && |cut| >= 1;
    if !(e != pending && HandleFutexDeath(t, aspace, e, offset).ret.Err?) {
      var t1 := if e != pending then HandleFutexDeath(t, aspace, e, offset).table else t;
      assert cut[1..] == [];
      assert ApplyDeaths(t1, aspace, cut[1..], offset, pending) == Walk(t1, [], [], Ok(0));
    }
  }

  /** A walk that handles its first entry and continues: agreement for the
      rest of the ring gives agreement for the whole. */
  lemma WalkInnerStep(t: FutexTable, aspace: nat, mem: EntryMemory, headAddr: u64, es: seq<u64>,
                      offset: i64, pending: u64, limit: nat)
    requires 2 <= limit && es != [] && es[0] != headAddr && es[0] in mem
    requires !(es[0] != pending && HandleFutexDeath(t, aspace, es[0], offset).ret.Err?)
    requires var t1 := if es[0] != pending then HandleFutexDeath(t, aspace, es[0], offset).table else t;
             AgreesWithFold(WalkFrom(t1, aspace, mem, headAddr, mem[es[0]], offset, pending, limit - 1),
                            t1, aspace, es[1..], offset, pending, limit - 1)
    ensures AgreesWithFold(WalkFrom(t, aspace, mem, headAddr, es[0], offset, pending, limit),
                           t, aspace, es, offset, pending, limit)
  {
    var e := es[0];
    var t1 := if e != pending then HandleFutexDeath(t, aspace, e, offset).table else t;
    var n := if e != pending then [e] else [];
    var rest := WalkFrom(t1, aspace, mem, headAddr, mem[e], offset, pending, limit - 1);
    assert WalkFrom(t, aspace, mem, headAddr, e, offset, pending, limit)
        == Walk(rest.table, [e] + rest.visited, n + rest.notified, rest.result);
    var cut := if |es| >= limit then es[..limit] else es;
    assert cut[0] == e && |cut| >= 1;
    assert cut[1..] == if |es[1..]| >= limit - 1 then es[1..][..limit - 1] else es[1..];
    var fold := ApplyDeaths(t1, aspace, cut[1..], offset, pending);
    assert ApplyDeaths(t, aspace, cut, offset, pending)
        == Walk(fold.table, [e] + fold.visited, n + fold.notified, fold.result);
  }

  lemma RingTail(mem: EntryMemory, headAddr: u64, es: seq<u64>)
    requires |es| >= 2 && IsRing(mem, headAddr, es[0], es)
    ensures IsRing(mem, headAddr, es[1], es[1..])
    ensures mem[es[0]] == es[1]
  {
  }

  /** The death handler never fails when no entry's futex address
      overflows. */
  ghost predicate OffsetsInRange(es: seq<u64>, offset: i64)
  {
    forall i :: 0 <= i < |es| ==> 0 <= es[i] + offset < U64_LIMIT
  }

  lemma {:induction false} ApplyDeathsSucceeds(t: FutexTable, aspace: nat, es: seq<u64>, offset: i64, pending: u64)
    requires OffsetsInRange(es, offset)
    ensures ApplyDeaths(t, aspace, es, offset, pending).result == Ok(0)
    ensures ApplyDeaths(t, aspace, es, offset, pending).visited == es
    decreases es
  {
    if es != [] {
      var t1 := if es[0] != pending then HandleFutexDeath(t, aspace, es[0], offset).table else t;
      assert OffsetsInRange(es[1..], offset) by {
        forall i | 0 <= i < |es[1..]| ensures 0 <= es[1..][i] + offset < U64_LIMIT {
          assert es[1..][i] == es[i + 1];
        }
      }
      ApplyDeathsSucceeds(t1, aspace, es[1..], offset, pending);
    }
  }

  /** On a well-formed ring of n entries whose futex addresses do not
      overflow, the exit walk succeeds exactly when n <= 2047, and otherwise
      stops with ELOOP after processing exactly 2048 entries. */
  lemma RingSucceedsIffShort(t: FutexTable, aspace: nat, mem: EntryMemory, headAddr: u64,
                             head: RobustListHead, es: seq<u64>)
    requires IsRing(mem, headAddr, head.next, es)
    requires OffsetsInRange(es, head.futexOffset)
    ensures var w := ExitRobustList(t, aspace, mem, headAddr, head);
            && (w.result.Ok? <==> |es| <= ROBUST_LIST_LIMIT - 1)
            && (w.result.Ok? ==> w.visited == es)
            && (w.result.Err? ==> w.result.error == ELOOP && w.visited == es[..ROBUST_LIST_LIMIT])
  {
    WalkFollowsRing(t, aspace, mem, headAddr, head.next, es, head.futexOffset, head.pending, ROBUST_LIST_LIMIT);
    if |es| < ROBUST_LIST_LIMIT {
      ApplyDeathsSucceeds(t, aspace, es, head.futexOffset, head.pending);
    } else {
      assert OffsetsInRange(es[..ROBUST_LIST_LIMIT], head.futexOffset) by {
        forall i | 0 <= i < ROBUST_LIST_LIMIT
          ensures 0 <= es[..ROBUST_LIST_LIMIT][i] + head.futexOffset < U64_LIMIT
        {
          assert es[..ROBUST_LIST_LIMIT][i] == es[i];
        }
      }
      ApplyDeathsSucceeds(t, aspace, es[..ROBUST_LIST_LIMIT], head.futexOffset, head.pending);
    }
  }

  /** A list holding one entry other than the pending one marks that
      entry's futex owner-died and wakes its front waiter. */
  lemma SingleEntryMarksOwnerDead(t: FutexTable, aspace: nat, mem: EntryMemory, headAddr: u64,
                                  head: RobustListHead)
    requires head.next != headAddr && head.next != head.pending
    requires head.next in mem && mem[head.next] == headAddr
    requires 0 <= head.next + head.futexOffset < U64_LIMIT
    requires FutexKey(aspace, head.next + head.futexOffset) in t
    ensures var key := FutexKey(aspace, head.next + head.futexOffset);
            var w := ExitRobustList(t, aspace, mem, headAddr, head);
            && w.result == Ok(0)
            && w.notified == [head.next]
            && w.table[key].ownerDead
            && w.table[key].queue == if t[key].queue == [] then [] else t[key].queue[1..]
  {
  }

  /** Following next pointers from `entry` for `n` steps never reaches the
      head or an untranslatable entry, and no futex address on the way
      overflows. */
  ghost predicate Unclosed(mem: EntryMemory, headAddr: u64, entry: u64, offset: i64, n: nat)
    decreases n
  {
    n == 0 ||
    (&& entry != headAddr && entry in mem
     && 0 <= entry + offset < U64_LIMIT
     && Unclosed(mem, headAddr, mem[entry], offset, n - 1))
  }

  /** A list that does not close within the budget ends in ELOOP after
      visiting exactly `limit` entries, whatever the pending entry. */
  lemma {:induction false} UnclosedWalkLoops(t: FutexTable, aspace: nat, mem: EntryMemory, headAddr: u64,
                                             entry: u64, offset: i64, pending: u64, limit: nat)
    requires 1 <= limit
    requires Unclosed(mem, headAddr, entry, offset, limit)
    ensures var w := WalkFrom(t, aspace, mem, headAddr, entry, offset, pending, limit);
            w.result == Err(ELOOP) && |w.visited| == limit
    decreases limit
  {
    if limit > 1 {
      var t1 := if entry != pending then HandleFutexDeath(t, aspace, entry, offset).table else t;
      UnclosedWalkLoops(t1, aspace, mem, headAddr, mem[entry], offset, pending, limit - 1);
    }
  }

  /** The exit walk over a list that does not close within 2048 entries
      gives ELOOP after 2048 entries. */
  lemma UnclosedListLoops(t: FutexTable, aspace: nat, mem: EntryMemory, headAddr: u64, head: RobustListHead)
    requires Unclosed(mem, headAddr, head.next, head.futexOffset, ROBUST_LIST_LIMIT)
    ensures var w := ExitRobustList(t, aspace, mem, headAddr, head);
            w.result == Err(ELOOP) && |w.visited| == ROBUST_LIST_LIMIT
  {
    UnclosedWalkLoops(t, aspace, mem, headAddr, head.next, head.futexOffset, head.pending, ROBUST_LIST_LIMIT);
  }

  lemma {:induction false} SelfLoopUnclosed(mem: EntryMemory, headAddr: u64, entry: u64, offset: i64, n: nat)
    requires entry != headAddr && entry in mem && mem[entry] == entry
    requires 0 <= entry + offset < U64_LIMIT
    ensures Unclosed(mem, headAddr, entry, offset, n)
  {
    if n > 0 {
      SelfLoopUnclosed(mem, headAddr, entry, offset, n - 1);
    }
  }

  /** An entry whose next pointer is itself is visited 2048 times and the
      walk gives ELOOP. */
  lemma SelfLoopGivesEloop(t: FutexTable, aspace: nat, mem: EntryMemory, headAddr: u64, head: RobustListHead)
    requires head.next != headAddr && head.next in mem && mem[head.next] == head.next
    requires 0 <= head.next + head.futexOffset < U64_LIMIT
    ensures var w := ExitRobustList(t, aspace, mem, headAddr, head);
            && w.result == Err(ELOOP)
            && |w.visited| == ROBUST_LIST_LIMIT
            && forall i :: 0 <= i < |w.visited| ==> w.visited[i] == head.next
  {
    SelfLoopUnclosed(mem, headAddr, head.next, head.futexOffset, ROBUST_LIST_LIMIT);
    UnclosedListLoops(t, aspace, mem, headAddr, head);
    var w := ExitRobustList(t, aspace, mem, headAddr, head);
    forall i | 0 <= i < |w.visited|
      ensures w.visited[i] == head.next
    {
      SameAlongSelfLoop(mem, headAddr, head.next, w.visited, i);
    }
  }

  lemma {:induction false} SameAlongSelfLoop(mem: EntryMemory, headAddr: u64, e: u64, vs: seq<u64>, i: nat)
    requires e in mem && mem[e] == e
    requires IsChain(mem, headAddr, vs) && vs != [] && vs[0] == e
    requires i < |vs|
    ensures vs[i] == e
  {
    if i > 0 {
      SameAlongSelfLoop(mem, headAddr, e, vs, i - 1);
    }
  }
}
