/** The futex engine: a per-process table from futex keys to wait queues,
    and the WAIT / WAKE / REQUEUE commands of futex(2).

    Blocking is not modelled as scheduling: a WAIT is split into the part
    that runs before the thread suspends (`WaitEnter`) and the part that runs
    when the scheduler resumes it (`WaitFinish`), with the scheduler's verdict
    (notified or timed out) as a parameter. */
module Futex {
  import opened Ints
  import opened Errors
  import Time

  // futex(2) command numbers
  const FUTEX_WAIT: bv32 := 0
  const FUTEX_WAKE: bv32 := 1
  const FUTEX_REQUEUE: bv32 := 3
  const FUTEX_CMP_REQUEUE: bv32 := 4
  const FUTEX_WAIT_BITSET: bv32 := 9
  const FUTEX_WAKE_BITSET: bv32 := 10
  /** Every bit except FUTEX_PRIVATE_FLAG (0x80) and FUTEX_CLOCK_REALTIME (0x100). */
  const FUTEX_CMD_MASK: bv32 := 0xFFFF_FE7F

  type Tid = nat

  /** A blocked thread and the bitset it registered with. Only the thread
      itself stores its bitset, and it does so before blocking, so the value
      captured at registration is the one a waker later loads. */
  datatype Waiter = Waiter(tid: Tid, bitset: bv32)

  /** Per-key state: the FIFO wait queue and the owner-died flag. */
  datatype Futex = Futex(queue: seq<Waiter>, ownerDead: bool)

  /** A futex word is identified by its address-space identity and its
      virtual address; equal addresses in different address spaces differ. */
  datatype FutexKey = FutexKey(aspace: nat, addr: nat)

  type FutexTable = map<FutexKey, Futex>

  /** The per-thread synchronisation state this core reads and writes. */
  datatype ThreadData = ThreadData(futexBitset: bv32, robustListHead: u64)

  /** User memory as seen by the engine: 32-bit words and timespec records
      at the addresses that translate; any other address faults. */
  datatype UserMemory = UserMemory(words: map<nat, u32>, timespecs: map<nat, Time.Timespec>)

  /** The calling thread. */
  datatype Caller = Caller(tid: Tid, aspace: nat, thread: ThreadData)

  /** The six raw arguments of the futex system call. `timeout` doubles as
      the requeue count for the REQUEUE commands. */
  datatype FutexArgs = FutexArgs(uaddr: nat, op: bv32, value: u32, timeout: u64, uaddr2: nat, value3: u32)

  const EmptyFutex: Futex := Futex([], false)

  function Min(a: int, b: int): int
  {
    if a <= b then a else b
  }

  /** The command number with the private and clock flags masked off. */
  function Command(op: bv32): (cmd: bv32)
    ensures cmd & 0x180 == 0
    ensures cmd | (op & 0x180) == op
  {
    op & FUTEX_CMD_MASK
  }

  /** The private and clock flags never change which command runs. */
  lemma CommandIgnoresOptionFlags(op: bv32)
    ensures Command(op | 0x80) == Command(op)
    ensures Command(op | 0x100) == Command(op)
  {
  }

  /** `get_or_insert`: the entry for `k`, created empty on first use. */
  function GetOrInsert(t: FutexTable, k: FutexKey): (t': FutexTable)
    ensures k in t' && t'.Keys == t.Keys + {k}
    ensures t'[k] == if k in t then t[k] else EmptyFutex
    ensures forall j :: j in t && j != k ==> t'[j] == t[j]
  {
    if k in t then t else t[k := EmptyFutex]
  }

  // -----------------------------------------------------------------------
  // Wake selection

  /** Whether a waker with the given mask (None for plain WAKE) selects a waiter. */
  predicate Eligible(w: Waiter, mask: Option<bv32>)
  {
    match mask
    case None => true
    case Some(m) => w.bitset & m != 0
  }

  /** The waiters a mask selects, in queue order. */
  function Eligibles(q: seq<Waiter>, mask: Option<bv32>): (r: seq<Waiter>)
    ensures |r| <= |q|
  {
    if q == [] then []
    else (if Eligible(q[0], mask) then [q[0]] else []) + Eligibles(q[1..], mask)
  }

  /** The waiters a mask passes over, in queue order. */
  function Ineligibles(q: seq<Waiter>, mask: Option<bv32>): (r: seq<Waiter>)
    ensures |r| <= |q|
  {
    if q == [] then []
    else (if Eligible(q[0], mask) then [] else [q[0]]) + Ineligibles(q[1..], mask)
  }

  datatype WakeSplit = WakeSplit(woken: seq<Waiter>, remaining: seq<Waiter>)

  /** `notify_all_if` with the WAKE predicate: walking the queue in order, a
      waiter is woken when fewer than `budget` have been woken so far and the
      mask selects it; everything else stays queued. */
  function NotifyAllIf(q: seq<Waiter>, budget: nat, mask: Option<bv32>): (s: WakeSplit)
    ensures |s.woken| <= budget
    ensures |s.woken| + |s.remaining| == |q|
    decreases q
  {
    if q == [] then WakeSplit([], [])
    else if budget > 0 && Eligible(q[0], mask) then
      var s := NotifyAllIf(q[1..], budget - 1, mask);
      WakeSplit([q[0]] + s.woken, s.remaining)
    else
      var s := NotifyAllIf(q[1..], budget, mask);
      WakeSplit(s.woken, [q[0]] + s.remaining)
  }

  /** Nobody is lost or duplicated: woken and remaining together are a
      permutation of the queue. */
  lemma {:induction false} NotifyAllIfPermutes(q: seq<Waiter>, budget: nat, mask: Option<bv32>)
    ensures multiset(NotifyAllIf(q, budget, mask).woken) + multiset(NotifyAllIf(q, budget, mask).remaining)
            == multiset(q)
    decreases q
  {
    if q != [] {
      if budget > 0 && Eligible(q[0], mask) {
        NotifyAllIfPermutes(q[1..], budget - 1, mask);
        PermutesAfterWake(q, NotifyAllIf(q[1..], budget - 1, mask));
      } else {
        NotifyAllIfPermutes(q[1..], budget, mask);
        PermutesAfterKeep(q, NotifyAllIf(q[1..], budget, mask));
      }
    }
  }

  lemma PermutesAfterWake(q: seq<Waiter>, s': WakeSplit)
    requires q != [] && multiset(s'.woken) + multiset(s'.remaining) == multiset(q[1..])
    ensures multiset([q[0]] + s'.woken) + multiset(s'.remaining) == multiset(q)
  {
    assert q == [q[0]] + q[1..];
  }

  lemma PermutesAfterKeep(q: seq<Waiter>, s': WakeSplit)
    requires q != [] && multiset(s'.woken) + multiset(s'.remaining) == multiset(q[1..])
    ensures multiset(s'.woken) + multiset([q[0]] + s'.remaining) == multiset(q)
  {
    assert q == [q[0]] + q[1..];
  }

  /** The independent description of a WAKE: the woken waiters are the
      first `budget` selected ones; the other selected ones and all
      passed-over ones stay queued in their original order. */
  ghost predicate SelectsFirst(q: seq<Waiter>, budget: nat, mask: Option<bv32>, s: WakeSplit)
  {
    var sel := Eligibles(q, mask);
    var k := Min(budget, |sel|);
    && s.woken == sel[..k]
    && Eligibles(s.remaining, mask) == sel[k..]
    && Ineligibles(s.remaining, mask) == Ineligibles(q, mask)
  }

  /** `q` with the entries of `ws` taken out, each at its earliest
      position after the previous one: what is left of a queue once the
      waiters `ws` have been dequeued in order. */
  function RemoveInOrder(q: seq<Waiter>, ws: seq<Waiter>): (r: seq<Waiter>)
    ensures |r| <= |q|
  {
    if ws == [] || q == [] then q
    else if q[0] == ws[0] then RemoveInOrder(q[1..], ws[1..])
    else [q[0]] + RemoveInOrder(q[1..], ws)
  }

  /** The WAKE walk agrees with the independent description, and what stays
      queued is the queue with the woken waiters taken out, so selected and
      passed-over waiters keep their relative order. */
  lemma NotifyAllIfMatchesSelection(q: seq<Waiter>, budget: nat, mask: Option<bv32>)
    ensures SelectsFirst(q, budget, mask, NotifyAllIf(q, budget, mask))
    ensures NotifyAllIf(q, budget, mask).remaining == RemoveInOrder(q, NotifyAllIf(q, budget, mask).woken)
  {
    NotifyAllIfRemovesWoken(q, budget, mask);
    SelectionAgrees(q, budget, mask);
  }

  /** The three parts of the independent description, one entry at a time. */
  lemma SelectionAgrees(q: seq<Waiter>, budget: nat, mask: Option<bv32>)
    ensures SelectsFirst(q, budget, mask, NotifyAllIf(q, budget, mask))
  {
    WakesFirstSelected(q, budget, mask);
    KeepsLaterSelected(q, budget, mask);
    KeepsPassedOver(q, budget, mask);
  }

  lemma {:induction false} WakesFirstSelected(q: seq<Waiter>, budget: nat, mask: Option<bv32>)
    ensures var sel := Eligibles(q, mask);
            NotifyAllIf(q, budget, mask).woken == sel[..Min(budget, |sel|)]
    decreases q
  {
    if q != [] {
      if budget > 0 && Eligible(q[0], mask) {
        WakesFirstSelected(q[1..], budget - 1, mask);
        WokenPrefixAfterWake(q, budget, mask, NotifyAllIf(q[1..], budget - 1, mask).woken);
      } else {
        WakesFirstSelected(q[1..], budget, mask);
        WokenPrefixAfterKeep(q, budget, mask, NotifyAllIf(q[1..], budget, mask).woken);
      }
    }
  }

  lemma WokenPrefixAfterWake(q: seq<Waiter>, budget: nat, mask: Option<bv32>, w': seq<Waiter>)
    requires q != [] && budget > 0 && Eligible(q[0], mask)
    requires var e' := Eligibles(q[1..], mask); w' == e'[..Min(budget - 1, |e'|)]
    ensures var sel := Eligibles(q, mask); [q[0]] + w' == sel[..Min(budget, |sel|)]
  {
    var e' := Eligibles(q[1..], mask);
    var sel := Eligibles(q, mask);
    var k := Min(budget - 1, |e'|);
    assert sel == [q[0]] + e';
    ConsSlices(q[0], e', budget - 1);
    assert Min(budget, |sel|) == k + 1;
    assert sel[..k + 1] == [q[0]] + e'[..k];
  }

  lemma WokenPrefixAfterKeep(q: seq<Waiter>, budget: nat, mask: Option<bv32>, w': seq<Waiter>)
    requires q != [] && !(budget > 0 && Eligible(q[0], mask))
    requires var e' := Eligibles(q[1..], mask); w' == e'[..Min(budget, |e'|)]
    ensures var sel := Eligibles(q, mask); w' == sel[..Min(budget, |sel|)]
  {
    var e' := Eligibles(q[1..], mask);
    if Eligible(q[0], mask) {
      assert Eligibles(q, mask) == [q[0]] + e';
    } else {
      assert Eligibles(q, mask) == e';
    }
  }

  /** Cutting `[x] + e` after the first b + 1 elements is cutting `e`
      after its first b. */
  lemma ConsSlices<T>(x: T, e: seq<T>, b: nat)
    ensures var k := Min(b, |e|);
            && Min(b + 1, |[x] + e|) == k + 1
            && ([x] + e)[..k + 1] == [x] + e[..k]
            && ([x] + e)[k + 1..] == e[k..]
  {
  }

  lemma {:induction false} KeepsLaterSelected(q: seq<Waiter>, budget: nat, mask: Option<bv32>)
    ensures var sel := Eligibles(q, mask);
            Eligibles(NotifyAllIf(q, budget, mask).remaining, mask) == sel[Min(budget, |sel|)..]
    decreases q
  {
    if q != [] {
      if budget > 0 && Eligible(q[0], mask) {
        KeepsLaterSelected(q[1..], budget - 1, mask);
        LaterSelectedAfterWake(q, budget, mask, NotifyAllIf(q[1..], budget - 1, mask).remaining);
      } else {
        KeepsLaterSelected(q[1..], budget, mask);
        LaterSelectedAfterKeep(q, budget, mask, NotifyAllIf(q[1..], budget, mask).remaining);
      }
    }
  }

  lemma LaterSelectedAfterWake(q: seq<Waiter>, budget: nat, mask: Option<bv32>, r': seq<Waiter>)
    requires q != [] && budget > 0 && Eligible(q[0], mask)
    requires var e' := Eligibles(q[1..], mask); Eligibles(r', mask) == e'[Min(budget - 1, |e'|)..]
    ensures var sel := Eligibles(q, mask); Eligibles(r', mask) == sel[Min(budget, |sel|)..]
  {
    var e' := Eligibles(q[1..], mask);
    var sel := Eligibles(q, mask);
    var k := Min(budget - 1, |e'|);
    assert sel == [q[0]] + e';
    ConsSlices(q[0], e', budget - 1);
    assert Min(budget, |sel|) == k + 1;
    assert sel[k + 1..] == e'[k..];
  }

  lemma LaterSelectedAfterKeep(q: seq<Waiter>, budget: nat, mask: Option<bv32>, r': seq<Waiter>)
    requires q != [] && !(budget > 0 && Eligible(q[0], mask))
    requires var e' := Eligibles(q[1..], mask); Eligibles(r', mask) == e'[Min(budget, |e'|)..]
    ensures var sel := Eligibles(q, mask); Eligibles([q[0]] + r', mask) == sel[Min(budget, |sel|)..]
  {
    var r := [q[0]] + r';
    assert r[1..] == r';
    var e' := Eligibles(q[1..], mask);
    if Eligible(q[0], mask) {
      assert Eligibles(q, mask) == [q[0]] + e';
      assert Eligibles(r, mask) == [q[0]] + Eligibles(r', mask);
    } else {
      assert Eligibles(q, mask) == e';
      assert Eligibles(r, mask) == Eligibles(r', mask);
    }
  }

  lemma {:induction false} KeepsPassedOver(q: seq<Waiter>, budget: nat, mask: Option<bv32>)
    ensures Ineligibles(NotifyAllIf(q, budget, mask).remaining, mask) == Ineligibles(q, mask)
    decreases q
  {
    if q != [] {
      if budget > 0 && Eligible(q[0], mask) {
        var s' := NotifyAllIf(q[1..], budget - 1, mask);
        KeepsPassedOver(q[1..], budget - 1, mask);
        assert NotifyAllIf(q, budget, mask).remaining == s'.remaining;
        assert Ineligibles(q, mask) == Ineligibles(q[1..], mask);
      } else {
        var s' := NotifyAllIf(q[1..], budget, mask);
        KeepsPassedOver(q[1..], budget, mask);
        var r := [q[0]] + s'.remaining;
        assert NotifyAllIf(q, budget, mask).remaining == r;
        assert r[1..] == s'.remaining;
      }
    }
  }

  /** Every woken waiter is selected. */
  lemma {:induction false} WokenAreEligible(q: seq<Waiter>, budget: nat, mask: Option<bv32>)
    ensures forall i :: 0 <= i < |NotifyAllIf(q, budget, mask).woken| ==>
              Eligible(NotifyAllIf(q, budget, mask).woken[i], mask)
    decreases q
  {
    if q != [] {
      if budget > 0 && Eligible(q[0], mask) {
        WokenAreEligible(q[1..], budget - 1, mask);
      } else {
        WokenAreEligible(q[1..], budget, mask);
      }
    }
  }

  /** The walk leaves the queue minus the woken waiters. */
  lemma {:induction false} NotifyAllIfRemovesWoken(q: seq<Waiter>, budget: nat, mask: Option<bv32>)
    ensures NotifyAllIf(q, budget, mask).remaining == RemoveInOrder(q, NotifyAllIf(q, budget, mask).woken)
    decreases q
  {
    if q != [] {
      var s := NotifyAllIf(q, budget, mask);
      if budget > 0 && Eligible(q[0], mask) {
        var s' := NotifyAllIf(q[1..], budget - 1, mask);
        NotifyAllIfRemovesWoken(q[1..], budget - 1, mask);
        assert s == WakeSplit([q[0]] + s'.woken, s'.remaining);
        RemoveMatchingFront(q, s.woken);
        assert s.woken[1..] == s'.woken;
      } else {
        var s' := NotifyAllIf(q[1..], budget, mask);
        NotifyAllIfRemovesWoken(q[1..], budget, mask);
        assert s == WakeSplit(s'.woken, [q[0]] + s'.remaining);
        if s'.woken != [] {
          WokenAreEligible(q[1..], budget, mask);
          assert Eligible(s'.woken[0], mask);
        }
        RemoveSkipsFront(q, s'.woken);
      }
    }
  }

  lemma RemoveMatchingFront(q: seq<Waiter>, ws: seq<Waiter>)
    requires q != [] && ws != [] && q[0] == ws[0]
    ensures RemoveInOrder(q, ws) == RemoveInOrder(q[1..], ws[1..])
  {
  }

  lemma RemoveSkipsFront(q: seq<Waiter>, ws: seq<Waiter>)
    requires q != [] && (ws == [] || q[0] != ws[0])
    ensures RemoveInOrder(q, ws) == [q[0]] + RemoveInOrder(q[1..], ws)
  {
    if ws == [] {
      assert q == [q[0]] + q[1..];
    }
  }

  lemma {:induction false} PlainMaskSelectsAll(q: seq<Waiter>)
    ensures Eligibles(q, None) == q
    ensures Ineligibles(q, None) == []
  {
    if q != [] {
      PlainMaskSelectsAll(q[1..]);
    }
  }

  /** Without a bitset, WAKE takes exactly the first min(value, n) waiters. */
  lemma PlainWakeTakesPrefix(q: seq<Waiter>, value: nat)
    ensures NotifyAllIf(q, value, None).woken == q[..Min(value, |q|)]
    ensures NotifyAllIf(q, value, None).remaining == q[Min(value, |q|)..]
  {
    NotifyAllIfMatchesSelection(q, value, None);
    PlainMaskSelectsAll(q);
    PlainMaskSelectsAll(NotifyAllIf(q, value, None).remaining);
  }

  /** When fewer than `budget` waiters were woken, no selected waiter is left queued. */
  lemma WakeExhaustsSelected(q: seq<Waiter>, budget: nat, mask: Option<bv32>)
    requires |NotifyAllIf(q, budget, mask).woken| < budget
    ensures forall i :: 0 <= i < |NotifyAllIf(q, budget, mask).remaining| ==>
              !Eligible(NotifyAllIf(q, budget, mask).remaining[i], mask)
  {
    var s := NotifyAllIf(q, budget, mask);
    NotifyAllIfMatchesSelection(q, budget, mask);
    NoEligibleLeft(s.remaining, mask);
  }

  lemma {:induction false} NoEligibleLeft(q: seq<Waiter>, mask: Option<bv32>)
    requires Eligibles(q, mask) == []
    ensures forall i :: 0 <= i < |q| ==> !Eligible(q[i], mask)
  {
    if q != [] {
      NoEligibleLeft(q[1..], mask);
      forall i | 0 <= i < |q|
        ensures !Eligible(q[i], mask)
      {
        if i > 0 {
          assert q[i] == q[1..][i - 1];
        }
      }
    }
  }

  // -----------------------------------------------------------------------
  // Results of one command

  /** A finished command: the table afterwards and the system-call result. */
  datatype Step = Step(table: FutexTable, ret: Result<int>)

  /** FUTEX_WAKE / FUTEX_WAKE_BITSET on one key. */
  function WakeStep(t: FutexTable, key: FutexKey, value: u32, mask: Option<bv32>): (r: Step)
    ensures key !in t ==> r == Step(t, Ok(0))
    ensures key in t ==>
              && r.ret.Ok? && 0 <= r.ret.value <= value
              && r.table.Keys == t.Keys
              && r.table[key].ownerDead == t[key].ownerDead
              && |r.table[key].queue| + r.ret.value == |t[key].queue|
              && (forall j :: j in t && j != key ==> r.table[j] == t[j])
  {
    if key !in t then Step(t, Ok(0))
    else
      var s := NotifyAllIf(t[key].queue, value, mask);
      Step(t[key := t[key].(queue := s.remaining)], Ok(|s.woken|))
  }

  /** The `notify_one` loop of REQUEUE: wakes front waiters one at a time,
      ignoring bitsets, until `n` were woken or the queue is empty. */
  function NotifyOneLoop(q: seq<Waiter>, n: nat): (r: (nat, seq<Waiter>))
    ensures r.0 == Min(n, |q|)
    ensures r.1 == q[r.0..]
    decreases n
  {
    if n == 0 || q == [] then (0, q)
    else
      var (c, rest) := NotifyOneLoop(q[1..], n - 1);
      (c + 1, rest)
  }

  /** FUTEX_REQUEUE / FUTEX_CMP_REQUEUE. */
  function RequeueStep(t: FutexTable, aspace: nat, mem: UserMemory, a: FutexArgs, compare: bool): (r: Step)
    ensures r.ret.Err? ==> r.table == t
    ensures r.ret.Err? <==>
              || NegativeAsI32(a.value)
              || (compare && (a.uaddr !in mem.words || mem.words[a.uaddr] != a.value3))
              || NegativeAsI32(a.timeout % U32_LIMIT)
    ensures r.ret.Ok? ==> r.ret.value >= 0 && r.table.Keys == t.Keys + {FutexKey(aspace, a.uaddr2)}
  {
    if NegativeAsI32(a.value) then Step(t, Err(EINVAL))
    else if compare && a.uaddr !in mem.words then Step(t, Err(EFAULT))
    else if compare && mem.words[a.uaddr] != a.value3 then Step(t, Err(EAGAIN))
    else
      // the requeue count is the low 32 bits of the timeout argument
      var value2 := a.timeout % U32_LIMIT;
      if NegativeAsI32(value2) then Step(t, Err(EINVAL))
      else
        var key1 := FutexKey(aspace, a.uaddr);
        var key2 := FutexKey(aspace, a.uaddr2);
        // key1 is looked up before key2's futex is created
        var present := key1 in t;
        var t1 := GetOrInsert(t, key2);
        if !present then Step(t1, Ok(0))
        else WakeThenMove(t1, key1, key2, a.value, value2)
  }

  /** The part of REQUEUE that runs once both futexes exist: wake up to
      `value` front waiters of key1 one at a time, and only if that many
      were woken move up to `value2` of the rest, in order, to the back of
      key2's queue. The result counts both. */
  function WakeThenMove(t: FutexTable, key1: FutexKey, key2: FutexKey, value: u32, value2: nat): (r: Step)
    requires key1 in t && key2 in t
    ensures r.table.Keys == t.Keys
    ensures forall j :: j in t && j != key1 && j != key2 ==> r.table[j] == t[j]
    ensures key1 != key2 ==>
              var q1 := t[key1].queue;
              var woken := Min(value, |q1|);
              var moved := if woken == value then Min(value2, |q1| - woken) else 0;
              && r.ret == Ok(woken + moved)
              && r.table[key1] == t[key1].(queue := q1[woken + moved..])
              && r.table[key2] == t[key2].(queue := t[key2].queue + q1[woken..woken + moved])
  {
    var q1 := t[key1].queue;
    var (woken, rest) := NotifyOneLoop(q1, value);
    if woken != value then Step(t[key1 := t[key1].(queue := rest)], Ok(woken))
    else
      var moved := Min(value2, |rest|);
      assert rest[..moved] == q1[woken..woken + moved];
      assert rest[moved..] == q1[woken + moved..];
      var t2 := t[key1 := t[key1].(queue := rest[moved..])];
      Step(t2[key2 := t2[key2].(queue := t2[key2].queue + rest[..moved])], Ok(woken + moved))
  }

  // -----------------------------------------------------------------------
  // WAIT

  /** The stateful predicate handed to the wait queue: its first evaluation
      (under the run-queue lock) re-reads the word and records whether it
      changed; every later evaluation answers true. Answering true ends the
      wait, so a changed word means the thread never blocks. */
  datatype WaitCondition = WaitCondition(firstCall: bool, mismatches: bool)

  const FreshCondition: WaitCondition := WaitCondition(true, false)

  function Evaluate(c: WaitCondition, word: u32, expected: u32): (r: (WaitCondition, bool))
    ensures !r.0.firstCall
    ensures c.firstCall ==> r.1 == (word != expected) && r.0.mismatches == r.1
    ensures !c.firstCall ==> r.1 && r.0 == c
  {
    if c.firstCall then
      var m := word != expected;
      (WaitCondition(false, m), m)
    else (c, true)
  }

  /** Evaluates the predicate once per value in `words`, returning the final
      state and every answer. */
  function EvaluateAll(c: WaitCondition, words: seq<u32>, expected: u32): (r: (WaitCondition, seq<bool>))
    ensures |r.1| == |words|
    decreases |words|
  {
    if words == [] then (c, [])
    else
      var (c1, b) := Evaluate(c, words[0], expected);
      var (c2, bs) := EvaluateAll(c1, words[1..], expected);
      (c2, [b] + bs)
  }

  /** Whatever the word reads on later evaluations, only the first answer
      depends on it, and the recorded mismatch is the first answer. */
  lemma {:induction false} OnlyFirstEvaluationReads(words: seq<u32>, expected: u32)
    requires |words| >= 1
    ensures EvaluateAll(FreshCondition, words, expected).1[0] == (words[0] != expected)
    ensures forall i :: 1 <= i < |words| ==> EvaluateAll(FreshCondition, words, expected).1[i]
    ensures EvaluateAll(FreshCondition, words, expected).0 == WaitCondition(false, words[0] != expected)
  {
    var c1 := Evaluate(FreshCondition, words[0], expected).0;
    LaterEvaluationsAnswerTrue(c1, words[1..], expected);
  }

  lemma {:induction false} LaterEvaluationsAnswerTrue(c: WaitCondition, words: seq<u32>, expected: u32)
    requires !c.firstCall
    ensures EvaluateAll(c, words, expected).0 == c
    ensures forall i :: 0 <= i < |words| ==> EvaluateAll(c, words, expected).1[i]
  {
    if words != [] {
      LaterEvaluationsAnswerTrue(c, words[1..], expected);
    }
  }

  /** A blocked waiter: the key it queued on, its queue entry, and whether
      it has a deadline. */
  datatype WaitTicket = WaitTicket(key: FutexKey, waiter: Waiter, timed: bool)

  datatype FutexOutcome =
    | Finished(table: FutexTable, thread: ThreadData, ret: Result<int>)
    | Blocked(table: FutexTable, thread: ThreadData, ticket: WaitTicket)

  /** The optional timeout: a null pointer means none, otherwise the
      timespec is read (EFAULT) and validated (EINVAL). */
  function ReadTimeout(mem: UserMemory, ptr: u64): (r: Result<Option<Time.TimeValue>>)
    ensures ptr == 0 ==> r == Ok(None)
    ensures ptr != 0 && ptr !in mem.timespecs ==> r == Err(EFAULT)
    ensures ptr != 0 && ptr in mem.timespecs ==>
              (r.Err? <==> !Time.TimespecInRange(mem.timespecs[ptr])) && (r.Err? ==> r.error == EINVAL)
  {
    if ptr == 0 then Ok(None)
    else if ptr !in mem.timespecs then Err(EFAULT)
    else
      var tv :- Time.TimespecToTimeValue(mem.timespecs[ptr]);
      Ok(Some(tv))
  }

  /** FUTEX_WAIT / FUTEX_WAIT_BITSET up to the point where the thread
      suspends. `wordAtLock` is the word as re-read under the run-queue lock
      by the first evaluation of the wait predicate. */
  function WaitEnter(t: FutexTable, c: Caller, mem: UserMemory, a: FutexArgs, bitsetVariant: bool,
                     wordAtLock: u32): (r: FutexOutcome)
    ensures a.uaddr in mem.words && mem.words[a.uaddr] != a.value ==> r == Finished(t, c.thread, Err(EAGAIN))
    ensures r.Finished? && r.ret.Err? && r.ret.error != EAGAIN ==> r.table == t && r.thread == c.thread
    ensures t.Keys <= r.table.Keys <= t.Keys + {FutexKey(c.aspace, a.uaddr)}
    ensures forall j :: j in t && j != FutexKey(c.aspace, a.uaddr) ==> r.table[j] == t[j]
    ensures r.Blocked? ==> wordAtLock == a.value && r.ticket.key == FutexKey(c.aspace, a.uaddr)
                           && r.ticket.waiter.tid == c.tid
  {
    if a.uaddr !in mem.words then Finished(t, c.thread, Err(EFAULT))
    // fast path: nothing is created or registered
    else if mem.words[a.uaddr] != a.value then Finished(t, c.thread, Err(EAGAIN))
    else
      match ReadTimeout(mem, a.timeout)
      case Err(e) => Finished(t, c.thread, Err(e))
      case Ok(deadline) =>
        var key := FutexKey(c.aspace, a.uaddr);
        var t1 := GetOrInsert(t, key);
        var thread := if bitsetVariant then c.thread.(futexBitset := a.value3 as bv32) else c.thread;
        var (cond, stop) := Evaluate(FreshCondition, wordAtLock, a.value);
        if stop then
          // the wait returns at once, not timed out; the mismatch is reported
          Finished(t1, thread, if cond.mismatches then Err(EAGAIN) else Ok(0))
        else
          var w := Waiter(c.tid, thread.futexBitset);
          Blocked(t1[key := t1[key].(queue := t1[key].queue + [w])], thread,
                  WaitTicket(key, w, deadline.Some?))
  }

  datatype Resumption = Notified | TimedOut

  /** Removes a thread's entries from a queue, keeping the others in order. */
  function RemoveTid(q: seq<Waiter>, tid: Tid): (r: seq<Waiter>)
    ensures forall i :: 0 <= i < |r| ==> r[i].tid != tid
    ensures forall w :: w in q && w.tid != tid ==> w in r
    ensures multiset(r) <= multiset(q)
  {
    if q == [] then []
    else
      assert q == [q[0]] + q[1..];
      (if q[0].tid == tid then [] else [q[0]]) + RemoveTid(q[1..], tid)
  }

  /** The rest of a WAIT once the scheduler resumes the thread. A timed-out
      waiter leaves the queue and reports ETIMEDOUT without touching the
      owner-died flag. A notified waiter swaps the flag to false and reports
      EOWNERDEAD exactly when it was set. */
  function WaitFinish(t: FutexTable, ticket: WaitTicket, how: Resumption): (r: Step)
    requires ticket.key in t
    requires how == TimedOut ==> ticket.timed
    ensures r.table.Keys == t.Keys
    ensures forall j :: j in t && j != ticket.key ==> r.table[j] == t[j]
    ensures how == Notified ==>
              && r.ret == (if t[ticket.key].ownerDead then Err(EOWNERDEAD) else Ok(0))
              && r.table[ticket.key] == t[ticket.key].(ownerDead := false)
    ensures how == TimedOut ==>
              && r.ret == Err(ETIMEDOUT)
              && r.table[ticket.key].ownerDead == t[ticket.key].ownerDead
              && (forall i :: 0 <= i < |r.table[ticket.key].queue| ==>
                    r.table[ticket.key].queue[i].tid != ticket.waiter.tid)
  {
    var f := t[ticket.key];
    match how
    case TimedOut =>
      Step(t[ticket.key := f.(queue := RemoveTid(f.queue, ticket.waiter.tid))], Err(ETIMEDOUT))
    case Notified =>
      Step(t[ticket.key := f.(ownerDead := false)], if f.ownerDead then Err(EOWNERDEAD) else Ok(0))
  }

  // -----------------------------------------------------------------------
  // The system call

  /** `sys_futex`: dispatch on the command. Futex entries are only ever
      created, never removed. */
  function SysFutex(t: FutexTable, c: Caller, mem: UserMemory, a: FutexArgs, wordAtLock: u32): (r: FutexOutcome)
    ensures t.Keys <= r.table.Keys
  {
    var cmd := Command(a.op);
    if cmd == FUTEX_WAIT || cmd == FUTEX_WAIT_BITSET then
      WaitEnter(t, c, mem, a, cmd == FUTEX_WAIT_BITSET, wordAtLock)
    else if cmd == FUTEX_WAKE || cmd == FUTEX_WAKE_BITSET then
      var s := WakeStep(t, FutexKey(c.aspace, a.uaddr), a.value,
                        if cmd == FUTEX_WAKE_BITSET then Some(a.value3 as bv32) else None);
      Finished(s.table, c.thread, s.ret)
    else if cmd == FUTEX_REQUEUE || cmd == FUTEX_CMP_REQUEUE then
      var s := RequeueStep(t, c.aspace, mem, a, cmd == FUTEX_CMP_REQUEUE);
      Finished(s.table, c.thread, s.ret)
    else
      Finished(t, c.thread, Err(ENOSYS))
  }

  predicate IsWait(a: FutexArgs)
  {
    Command(a.op) == FUTEX_WAIT || Command(a.op) == FUTEX_WAIT_BITSET
  }

  /** WAIT fast path: a word that differs from the expected value gives
      EAGAIN before the timeout is even read, with no futex created, no
      waiter registered and no bitset stored. */
  lemma WaitFastPath(t: FutexTable, c: Caller, mem: UserMemory, a: FutexArgs, wordAtLock: u32)
    requires IsWait(a)
    requires a.uaddr in mem.words && mem.words[a.uaddr] != a.value
    ensures SysFutex(t, c, mem, a, wordAtLock) == Finished(t, c.thread, Err(EAGAIN))
  {
  }

  /** A malformed timeout is only reported once the fast path has passed,
      and then nothing is created either. */
  lemma WaitRejectsBadTimeout(t: FutexTable, c: Caller, mem: UserMemory, a: FutexArgs, wordAtLock: u32)
    requires IsWait(a)
    requires a.uaddr in mem.words && mem.words[a.uaddr] == a.value
    requires a.timeout != 0 && a.timeout in mem.timespecs
    requires !Time.TimespecInRange(mem.timespecs[a.timeout])
    ensures SysFutex(t, c, mem, a, wordAtLock) == Finished(t, c.thread, Err(EINVAL))
  {
  }

  /** Past the fast path and the timeout check, the futex exists afterwards
      and the thread blocks exactly when the word re-read under the lock
      still matches; then it is appended to the queue with its bitset
      (value3 for WAIT_BITSET, its previous bitset for plain WAIT). A
      mismatch under the lock returns EAGAIN without blocking. */
  lemma WaitRegistersIffWordUnchanged(t: FutexTable, c: Caller, mem: UserMemory, a: FutexArgs, wordAtLock: u32)
    requires IsWait(a)
    requires a.uaddr in mem.words && mem.words[a.uaddr] == a.value
    requires ReadTimeout(mem, a.timeout).Ok?
    ensures var r := SysFutex(t, c, mem, a, wordAtLock);
            var key := FutexKey(c.aspace, a.uaddr);
            var q := if key in t then t[key].queue else [];
            && key in r.table
            && r.thread.futexBitset == (if Command(a.op) == FUTEX_WAIT_BITSET then a.value3 as bv32 else c.thread.futexBitset)
            && (r.Blocked? <==> wordAtLock == a.value)
            && (r.Blocked? ==>
                  && r.table[key].queue == q + [Waiter(c.tid, r.thread.futexBitset)]
                  && r.ticket == WaitTicket(key, Waiter(c.tid, r.thread.futexBitset), a.timeout != 0))
            && (r.Finished? ==> r.ret == Err(EAGAIN) && r.table[key].queue == q)
  {
  }

  /** WAKE on a key with no futex wakes nobody and returns 0. */
  lemma WakeWithoutFutex(t: FutexTable, c: Caller, mem: UserMemory, a: FutexArgs, wordAtLock: u32)
    requires Command(a.op) == FUTEX_WAKE || Command(a.op) == FUTEX_WAKE_BITSET
    requires FutexKey(c.aspace, a.uaddr) !in t
    ensures SysFutex(t, c, mem, a, wordAtLock) == Finished(t, c.thread, Ok(0))
  {
  }

  /** WAKE_BITSET wakes, in queue order, the first `value` waiters whose
      bitset shares a bit with value3; all others stay queued in order. */
  lemma WakeBitsetSelects(t: FutexTable, c: Caller, mem: UserMemory, a: FutexArgs, wordAtLock: u32)
    requires Command(a.op) == FUTEX_WAKE_BITSET
    requires FutexKey(c.aspace, a.uaddr) in t
    ensures var key := FutexKey(c.aspace, a.uaddr);
            var r := SysFutex(t, c, mem, a, wordAtLock);
            var sel := Eligibles(t[key].queue, Some(a.value3 as bv32));
            var k := Min(a.value, |sel|);
            && r == Finished(r.table, c.thread, Ok(k))
            && Eligibles(r.table[key].queue, Some(a.value3 as bv32)) == sel[k..]
            && Ineligibles(r.table[key].queue, Some(a.value3 as bv32)) == Ineligibles(t[key].queue, Some(a.value3 as bv32))
            && r.table[key].queue == RemoveInOrder(t[key].queue, sel[..k])
  {
    NotifyAllIfMatchesSelection(t[FutexKey(c.aspace, a.uaddr)].queue, a.value, Some(a.value3 as bv32));
  }

  /** Plain WAKE wakes the first min(value, n) waiters and keeps the rest. */
  lemma WakePlainTakesFront(t: FutexTable, c: Caller, mem: UserMemory, a: FutexArgs, wordAtLock: u32)
    requires Command(a.op) == FUTEX_WAKE
    requires FutexKey(c.aspace, a.uaddr) in t
    ensures var key := FutexKey(c.aspace, a.uaddr);
            var r := SysFutex(t, c, mem, a, wordAtLock);
            var k := Min(a.value, |t[key].queue|);
            && r.Finished? && r.ret == Ok(k)
            && r.table[key].queue == t[key].queue[k..]
  {
    PlainWakeTakesPrefix(t[FutexKey(c.aspace, a.uaddr)].queue, a.value);
  }

  /** REQUEUE rejects a wake count with bit 31 set before anything else. */
  lemma RequeueRejectsNegativeCount(t: FutexTable, c: Caller, mem: UserMemory, a: FutexArgs, wordAtLock: u32)
    requires Command(a.op) == FUTEX_REQUEUE || Command(a.op) == FUTEX_CMP_REQUEUE
    requires NegativeAsI32(a.value)
    ensures SysFutex(t, c, mem, a, wordAtLock) == Finished(t, c.thread, Err(EINVAL))
  {
  }

  /** CMP_REQUEUE with a changed word neither wakes nor moves anyone; the
      comparison is made before the requeue count is checked. */
  lemma CmpRequeueMismatch(t: FutexTable, c: Caller, mem: UserMemory, a: FutexArgs, wordAtLock: u32)
    requires Command(a.op) == FUTEX_CMP_REQUEUE
    requires !NegativeAsI32(a.value)
    requires a.uaddr in mem.words && mem.words[a.uaddr] != a.value3
    ensures SysFutex(t, c, mem, a, wordAtLock) == Finished(t, c.thread, Err(EAGAIN))
  {
  }

  /** The requeue count is the low 32 bits of the timeout argument and is
      rejected when its bit 31 is set. */
  lemma RequeueRejectsNegativeMoveCount(t: FutexTable, c: Caller, mem: UserMemory, a: FutexArgs, wordAtLock: u32)
    requires Command(a.op) == FUTEX_REQUEUE
    requires !NegativeAsI32(a.value)
    requires NegativeAsI32(a.timeout % U32_LIMIT)
    ensures SysFutex(t, c, mem, a, wordAtLock) == Finished(t, c.thread, Err(EINVAL))
  {
  }

  /** A valid REQUEUE, or a CMP_REQUEUE whose word matches value3, between
      two distinct keys: up to `value` front waiters of key1 are woken; only
      if exactly `value` were woken are up to value2 of the remaining ones
      moved, in order, to the back of key2's queue; the result is woken +
      moved; key2's futex exists afterwards in every case; owner-died flags
      are untouched. */
  lemma RequeueMoves(t: FutexTable, c: Caller, mem: UserMemory, a: FutexArgs, wordAtLock: u32)
    requires Command(a.op) == FUTEX_REQUEUE || Command(a.op) == FUTEX_CMP_REQUEUE
    requires Command(a.op) == FUTEX_CMP_REQUEUE ==> a.uaddr in mem.words && mem.words[a.uaddr] == a.value3
    requires !NegativeAsI32(a.value) && !NegativeAsI32(a.timeout % U32_LIMIT)
    requires a.uaddr != a.uaddr2
    ensures var r := SysFutex(t, c, mem, a, wordAtLock);
            && r.Finished?
            && RequeueMovesSpec(t, FutexKey(c.aspace, a.uaddr), FutexKey(c.aspace, a.uaddr2), a,
                                Step(r.table, r.ret))
  {
    RequeueDispatch(t, c, mem, a, wordAtLock);
    RequeueStepMoves(t, c.aspace, mem, a, Command(a.op) == FUTEX_CMP_REQUEUE);
  }

  /** What a valid REQUEUE between two distinct keys leaves behind. */
  ghost predicate RequeueMovesSpec(t: FutexTable, key1: FutexKey, key2: FutexKey, a: FutexArgs, r: Step)
  {
    var q1 := if key1 in t then t[key1].queue else [];
    var q2 := if key2 in t then t[key2].queue else [];
    var woken := Min(a.value, |q1|);
    var moved := if key1 in t && woken == a.value then Min(a.timeout % U32_LIMIT, |q1| - woken) else 0;
    && key2 in r.table
    && r.table.Keys == t.Keys + {key2}
    && (key1 !in t ==> r.ret == Ok(0) && r.table == GetOrInsert(t, key2))
    && (key1 in t ==>
          && r.ret == Ok(woken + moved)
          && r.table[key1] == t[key1].(queue := q1[woken + moved..])
          && r.table[key2].queue == q2 + q1[woken..woken + moved]
          && r.table[key2].ownerDead == (key2 in t && t[key2].ownerDead))
  }

  lemma RequeueDispatch(t: FutexTable, c: Caller, mem: UserMemory, a: FutexArgs, wordAtLock: u32)
    requires Command(a.op) == FUTEX_REQUEUE || Command(a.op) == FUTEX_CMP_REQUEUE
    ensures var s := RequeueStep(t, c.aspace, mem, a, Command(a.op) == FUTEX_CMP_REQUEUE);
            SysFutex(t, c, mem, a, wordAtLock) == Finished(s.table, c.thread, s.ret)
  {
  }

  lemma RequeueStepMoves(t: FutexTable, aspace: nat, mem: UserMemory, a: FutexArgs, compare: bool)
    requires compare ==> a.uaddr in mem.words && mem.words[a.uaddr] == a.value3
    requires !NegativeAsI32(a.value) && !NegativeAsI32(a.timeout % U32_LIMIT)
    requires a.uaddr != a.uaddr2
    ensures RequeueMovesSpec(t, FutexKey(aspace, a.uaddr), FutexKey(aspace, a.uaddr2), a,
                             RequeueStep(t, aspace, mem, a, compare))
  {
    var key1 := FutexKey(aspace, a.uaddr);
    var key2 := FutexKey(aspace, a.uaddr2);
    var t1 := GetOrInsert(t, key2);
    if key1 in t {
      assert t1[key1] == t[key1];
      assert RequeueStep(t, aspace, mem, a, compare) == WakeThenMove(t1, key1, key2, a.value, a.timeout % U32_LIMIT);
    }
  }

  /** Unknown commands fail with ENOSYS and change nothing. */
  lemma UnknownCommand(t: FutexTable, c: Caller, mem: UserMemory, a: FutexArgs, wordAtLock: u32)
    requires Command(a.op) !in {FUTEX_WAIT, FUTEX_WAKE, FUTEX_REQUEUE, FUTEX_CMP_REQUEUE,
                                FUTEX_WAIT_BITSET, FUTEX_WAKE_BITSET}
    ensures SysFutex(t, c, mem, a, wordAtLock) == Finished(t, c.thread, Err(ENOSYS))
  {
  }
}
