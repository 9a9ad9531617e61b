/** The decision logic of clone(2) and fork(2): decoding the flag word,
    validating it, and deciding, per resource, whether the child reuses the
    caller's process, shares a handle, or receives an independent copy.

    The outcome is a plan record; creating the kernel thread, the thread table, and
    reference-counted sharing are outside this model. "Shared(h)" means the
    child holds the very same handle h; "Copied(h)" means it holds a fresh,
    independent copy of h. */
module Clone {
  import opened Ints
  import opened Errors

  /** The flags the kernel recognises; any other bit above the low byte is
      dropped when the word is decoded. */
  datatype CloneFlag =
    | VM | FS | FILES | SIGHAND | PTRACE | VFORK | PARENT | THREAD | NEWNS | SYSVSEM
    | SETTLS | PARENT_SETTID | CHILD_CLEARTID | UNTRACED | CHILD_SETTID | NEWCGROUP
    | NEWUTS | NEWIPC | NEWUSER | NEWPID | NEWNET | IO

  /** The CLONE_* bit of each flag. */
  function Bit(f: CloneFlag): bv32
  {
    match f
    case VM => 0x100
    case FS => 0x200
    case FILES => 0x400
    case SIGHAND => 0x800
    case PTRACE => 0x2000
    case VFORK => 0x4000
    case PARENT => 0x8000
    case THREAD => 0x1_0000
    case NEWNS => 0x2_0000
    case SYSVSEM => 0x4_0000
    case SETTLS => 0x8_0000
    case PARENT_SETTID => 0x10_0000
    case CHILD_CLEARTID => 0x20_0000
    case UNTRACED => 0x80_0000
    case CHILD_SETTID => 0x100_0000
    case NEWCGROUP => 0x200_0000
    case NEWUTS => 0x400_0000
    case NEWIPC => 0x800_0000
    case NEWUSER => 0x1000_0000
    case NEWPID => 0x2000_0000
    case NEWNET => 0x4000_0000
    case IO => 0x8000_0000
  }

  const AllFlags: seq<CloneFlag> :=
    [VM, FS, FILES, SIGHAND, PTRACE, VFORK, PARENT, THREAD, NEWNS, SYSVSEM,
     SETTLS, PARENT_SETTID, CHILD_CLEARTID, UNTRACED, CHILD_SETTID, NEWCGROUP,
     NEWUTS, NEWIPC, NEWUSER, NEWPID, NEWNET, IO]

  /** The low byte of the flag word carries the exit signal. */
  const EXIT_SIGNAL_MASK: bv32 := 0xff
  const SIGCHLD: bv32 := 17
  /** Signal numbers the signal subsystem accepts are 1 through 64. */
  const MAX_SIGNO: nat := 64

  /** `flags & 0xff`: the word is the exit signal in its low byte with the
      flag bits above it. */
  function ExitSignal(word: bv32): (sig: bv8)
    ensures (sig as bv32) | (word & !EXIT_SIGNAL_MASK) == word
  {
    (word & EXIT_SIGNAL_MASK) as bv8
  }

  /** The decomposition pins the byte: any byte that, OR-ed with the word's
      bits above the low byte, gives back the word is the exit signal. */
  lemma ExitSignalIsUnique(word: bv32, b: bv8)
    requires (b as bv32) | (word & !EXIT_SIGNAL_MASK) == word
    ensures b == ExitSignal(word)
  {
    assert (b as bv32) & EXIT_SIGNAL_MASK == word & EXIT_SIGNAL_MASK;
  }

  /** `from_bits_truncate(flags & !FLAG_MASK)`: a flag is present exactly
      when its bit is set in the word; bits of no known flag are dropped. */
  function FlagsOf(word: bv32): (flags: set<CloneFlag>)
    ensures forall f :: f in flags <==> word & Bit(f) != 0
  {
    var flags := set f | f in AllFlags && (word & !EXIT_SIGNAL_MASK) & Bit(f) != 0;
    assert forall f :: f in flags <==> word & Bit(f) != 0 by {
      forall f
        ensures f in flags <==> word & Bit(f) != 0
      {
        FlagFacts(f);
      }
    }
    flags
  }

  /** The signal number, if the signal subsystem knows it. */
  function Signo(n: nat): (r: Option<nat>)
    ensures r.Some? <==> 1 <= n <= MAX_SIGNO
    ensures r.Some? ==> r.value == n
  {
    if 1 <= n <= MAX_SIGNO then Some(n) else None
  }

  lemma FlagFacts(f: CloneFlag)
    ensures f in AllFlags
    ensures Bit(f) & EXIT_SIGNAL_MASK == 0
  {
  }

  // -----------------------------------------------------------------------
  // The caller and the plan

  /** The registers the child starts with: instruction pointer, stack
      pointer, thread pointer and return-value register. */
  datatype UserContext = UserContext(ip: nat, sp: nat, tls: nat, retval: int)

  /** The calling thread, its process data, and its process's parent. */
  datatype Caller = Caller(
    pid: nat,
    parent: Option<nat>,          // the caller's parent process, if any
    parentActions: Option<nat>,   // that parent's signal-action table, if it has process data
    aspace: nat,                  // address-space handle
    pageTableRoot: nat,
    actions: nat,                 // signal-action table handle
    umask: u32,
    exePath: seq<char>,
    fdTable: nat,
    fsContext: nat,
    context: UserContext)

  /** Collaborators: the id the scheduler gives the new task, the result of
      copying the caller's address space (the copy's page-table root, or the
      error), and the user addresses that translate for writing. */
  datatype Env = Env(newTid: nat, aspaceCopy: Result<nat>, writable: set<nat>)

  datatype Sharing = Shared(handle: nat) | Copied(source: nat)

  datatype SignalActionsPlan = SharedActions(handle: nat) | DefaultActions

  datatype ProcessPlan =
    | SameProcess(pid: nat)
    | NewProcess(parent: nat, aspace: Sharing, actions: SignalActionsPlan, files: Sharing,
                 fs: Sharing, umask: u32, exePath: seq<char>, exitSignal: Option<nat>)

  datatype ClonePlan = ClonePlan(
    tid: nat,
    process: ProcessPlan,
    pageTableRoot: nat,
    context: UserContext,
    setChildTid: Option<nat>,     // where the child stores its own tid when it starts
    clearChildTid: Option<nat>)   // recorded in the new thread's data

  datatype TidWrite = TidWrite(addr: nat, tid: nat)

  /** The parent-tid store happens before later errors, so it is reported
      beside the result. */
  datatype CloneOutcome = CloneOutcome(parentTidWrite: Option<TidWrite>, result: Result<ClonePlan>)

  /** The two flag combinations clone rejects. */
  predicate InvalidCombination(sig: nat, fs: set<CloneFlag>)
  {
    || (sig != 0 && THREAD in fs && PARENT in fs)
    || (THREAD in fs && !(VM in fs && SIGHAND in fs))
  }

  /** The child's registers: the caller's, with the stack replaced only for
      a non-zero stack, the thread pointer only under SETTLS, and the return
      register zero. */
  function ChildContext(ctx: UserContext, fs: set<CloneFlag>, stack: nat, tls: nat): (c: UserContext)
    ensures c.ip == ctx.ip && c.retval == 0
    ensures stack == 0 ==> c.sp == ctx.sp
    ensures stack != 0 ==> c.sp == stack
    ensures SETTLS !in fs ==> c.tls == ctx.tls
    ensures SETTLS in fs ==> c.tls == tls
  {
    var c1 := if stack != 0 then ctx.(sp := stack) else ctx;
    var c2 := if SETTLS in fs then c1.(tls := tls) else c1;
    c2.(retval := 0)
  }

  /** The process the new one is registered under. */
  function LineageParent(fs: set<CloneFlag>, caller: Caller): (r: Result<nat>)
    ensures PARENT !in fs ==> r == Ok(caller.pid)
    ensures PARENT in fs && caller.parent.None? ==> r == Err(EINVAL)
    ensures PARENT in fs && caller.parent.Some? ==> r == Ok(caller.parent.value)
  {
    if PARENT in fs then
      match caller.parent
      case None => Err(EINVAL)
      case Some(p) => Ok(p)
    else Ok(caller.pid)
  }

  function ShareOrCopy(share: bool, handle: nat): Sharing
  {
    if share then Shared(handle) else Copied(handle)
  }

  /** Signal actions of a new process as the code selects them: under
      SIGHAND, the table of the lineage parent (the caller's own parent when
      PARENT is set), or a default table if that process has no process
      data; without SIGHAND, a default table. */
  function SignalActionsAsWritten(fs: set<CloneFlag>, caller: Caller): (r: SignalActionsPlan)
    ensures SIGHAND !in fs ==> r == DefaultActions
    ensures SIGHAND in fs && PARENT !in fs ==> r == SharedActions(caller.actions)
    ensures SIGHAND in fs && PARENT in fs ==>
              r == if caller.parentActions.Some? then SharedActions(caller.parentActions.value) else DefaultActions
  {
    if SIGHAND in fs then
      var lineage := if PARENT in fs then caller.parentActions else Some(caller.actions);
      match lineage
      case Some(h) => SharedActions(h)
      case None => DefaultActions
    else DefaultActions
  }

  /** With PARENT and SIGHAND the code shares the grandparent's table, not
      the caller's one that CLONE_SIGHAND promises. */
  lemma SignalActionsAsWrittenSharesWrongTable()
    ensures var caller := Caller(2, Some(1), Some(10), 0, 0, 20, 0, "", 0, 0, UserContext(0, 0, 0, 0));
            SignalActionsAsWritten({VM, SIGHAND, PARENT}, caller) == SharedActions(10)
            && caller.actions == 20
  {
  }

  /** Signal actions of a new process: under SIGHAND the caller's own table
      is shared, otherwise the child starts from a default table. */
  function SignalActions(fs: set<CloneFlag>, caller: Caller): (r: SignalActionsPlan)
    ensures SIGHAND in fs <==> r == SharedActions(caller.actions)
    ensures SIGHAND !in fs <==> r == DefaultActions
  {
    if SIGHAND in fs then SharedActions(caller.actions) else DefaultActions
  }

  /** The two definitions differ only when PARENT is set. */
  lemma SignalActionsAgreeWithoutParent(fs: set<CloneFlag>, caller: Caller)
    requires PARENT !in fs
    ensures SignalActionsAsWritten(fs, caller) == SignalActions(fs, caller)
  {
  }

  /** The child's address space: the caller's very handle under VM (same
      page-table root), else a copy of it (the copy's root), or the copy's
      error. */
  function AddressSpacePlan(fs: set<CloneFlag>, caller: Caller, env: Env): (r: Result<(Sharing, nat)>)
    ensures VM in fs ==> r == Ok((Shared(caller.aspace), caller.pageTableRoot))
    ensures VM !in fs && env.aspaceCopy.Err? ==> r == Err(env.aspaceCopy.error)
    ensures VM !in fs && env.aspaceCopy.Ok? ==> r == Ok((Copied(caller.aspace), env.aspaceCopy.value))
  {
    if VM in fs then Ok((Shared(caller.aspace), caller.pageTableRoot))
    else
      var root :- env.aspaceCopy;
      Ok((Copied(caller.aspace), root))
  }

  /** `sys_clone`: decode the flag word, then decide. Read back in terms of
      the word: a success has the new thread id and the parent tid is stored
      only under CLONE_PARENT_SETTID. */
  function SysClone(caller: Caller, env: Env, word: bv32, stack: nat, parentTid: nat,
                    childTid: nat, tls: nat): (r: CloneOutcome)
    ensures r.result.Ok? ==> r.result.value.tid == env.newTid
    ensures r.parentTidWrite.Some? ==> word & Bit(PARENT_SETTID) != 0
  {
    CloneDecoded(caller, env, ExitSignal(word) as nat, FlagsOf(word), stack, parentTid, childTid, tls)
  }

  /** A successful clone of a thread had CLONE_VM and CLONE_SIGHAND set in
      its flag word. */
  lemma SysCloneThreadCarriesVmAndSighand(caller: Caller, env: Env, word: bv32, stack: nat, parentTid: nat,
                                          childTid: nat, tls: nat)
    requires SysClone(caller, env, word, stack, parentTid, childTid, tls).result.Ok?
    requires word & Bit(THREAD) != 0
    ensures word & Bit(VM) != 0 && word & Bit(SIGHAND) != 0
  {
  }

  /** The body of `sys_clone` as written, once the word is decoded into the
      exit signal `sig` and the flag set `fs`: a rejected combination is
      EINVAL with nothing written, a success has the new thread id and a
      valid combination, and the parent tid is stored only under
      PARENT_SETTID. */
  function CloneDecoded(caller: Caller, env: Env, sig: nat, fs: set<CloneFlag>, stack: nat, parentTid: nat,
                        childTid: nat, tls: nat): (r: CloneOutcome)
    ensures InvalidCombination(sig, fs) ==> r == CloneOutcome(None, Err(EINVAL))
    ensures r.result.Ok? ==> !InvalidCombination(sig, fs) && r.result.value.tid == env.newTid
    ensures r.parentTidWrite.Some? ==>
              PARENT_SETTID in fs && parentTid in env.writable && r.parentTidWrite.value == TidWrite(parentTid, env.newTid)
  {
    CloneWith(caller, env, sig, fs, stack, parentTid, childTid, tls, SignalActionsAsWritten(fs, caller))
  }

  /** The clone with CLONE_SIGHAND sharing the caller's own table. */
  function CloneCorrected(caller: Caller, env: Env, sig: nat, fs: set<CloneFlag>, stack: nat, parentTid: nat,
                          childTid: nat, tls: nat): CloneOutcome
  {
    CloneWith(caller, env, sig, fs, stack, parentTid, childTid, tls, SignalActions(fs, caller))
  }

  /** The decisions of `sys_clone`, given the signal-action table a new
      process gets. */
  function CloneWith(caller: Caller, env: Env, sig: nat, fs: set<CloneFlag>, stack: nat, parentTid: nat,
                     childTid: nat, tls: nat, actions: SignalActionsPlan): CloneOutcome
  {
    if InvalidCombination(sig, fs) then CloneOutcome(None, Err(EINVAL))
    else
      var ctx := ChildContext(caller.context, fs, stack, tls);
      // the child-tid pointer is checked before the thread is created
      if CHILD_SETTID in fs && childTid !in env.writable then CloneOutcome(None, Err(EFAULT))
      else
        var tid := env.newTid;
        if PARENT_SETTID in fs && parentTid !in env.writable then CloneOutcome(None, Err(EFAULT))
        else
          var write := if PARENT_SETTID in fs then Some(TidWrite(parentTid, tid)) else None;
          var setChild := if CHILD_SETTID in fs then Some(childTid) else None;
          var clear := if CHILD_CLEARTID in fs then Some(childTid) else None;
          if THREAD in fs then
            CloneOutcome(write, Ok(ClonePlan(tid, SameProcess(caller.pid), caller.pageTableRoot,
                                             ctx, setChild, clear)))
          else
            match LineageParent(fs, caller)
            case Err(e) => CloneOutcome(write, Err(e))
            case Ok(parent) =>
              match AddressSpacePlan(fs, caller, env)
              case Err(e) => CloneOutcome(write, Err(e))
              case Ok((aspace, root)) =>
                var p := NewProcess(parent, aspace, actions,
                                    ShareOrCopy(FILES in fs, caller.fdTable),
                                    ShareOrCopy(FS in fs, caller.fsContext),
                                    caller.umask, caller.exePath, Signo(sig));
                CloneOutcome(write, Ok(ClonePlan(tid, p, root, ctx, setChild, clear)))
  }

  /** The return value of the system call: the new thread id. */
  function SysCloneReturn(o: CloneOutcome): (r: Result<int>)
    ensures o.result.Ok? ==> r == Ok(o.result.value.tid)
    ensures o.result.Err? ==> r == Err(o.result.error)
  {
    match o.result
    case Ok(plan) => Ok(plan.tid)
    case Err(e) => Err(e)
  }

  /** `sys_fork`: clone with the flag word SIGCHLD and every other argument
      0. It stores no tid and fails exactly when copying the address space
      fails. */
  function SysFork(caller: Caller, env: Env): (r: CloneOutcome)
    ensures r.parentTidWrite.None?
    ensures r.result.Ok? <==> env.aspaceCopy.Ok?
  {
    ForkWordDecodes();
    SysClone(caller, env, SIGCHLD, 0, 0, 0, 0)
  }

  // -----------------------------------------------------------------------
  // Properties, stated for every decoded exit signal and flag set
  // (`FlagsOf` says which flag set a word decodes to)

  /** A rejected flag combination fails with EINVAL before any side effect. */
  lemma CloneRejectsBadCombination(caller: Caller, env: Env, sig: nat, fs: set<CloneFlag>, stack: nat, parentTid: nat,
                                   childTid: nat, tls: nat)
    requires InvalidCombination(sig, fs)
    ensures CloneDecoded(caller, env, sig, fs, stack, parentTid, childTid, tls) == CloneOutcome(None, Err(EINVAL))
  {
  }

  /** Every successful clone satisfies the flag invariants: THREAD implies
      VM and SIGHAND, and THREAD with PARENT implies a zero exit signal. */
  lemma CloneFlagInvariants(caller: Caller, env: Env, sig: nat, fs: set<CloneFlag>, stack: nat, parentTid: nat,
                            childTid: nat, tls: nat)
    requires CloneDecoded(caller, env, sig, fs, stack, parentTid, childTid, tls).result.Ok?
    ensures THREAD in fs ==> VM in fs && SIGHAND in fs
    ensures THREAD in fs && PARENT in fs ==> sig == 0
  {
  }

  /** The child's registers and the thread-id bookkeeping of a successful clone. */
  lemma CloneChildSetup(caller: Caller, env: Env, sig: nat, fs: set<CloneFlag>, stack: nat, parentTid: nat,
                        childTid: nat, tls: nat)
    requires CloneDecoded(caller, env, sig, fs, stack, parentTid, childTid, tls).result.Ok?
    ensures var o := CloneDecoded(caller, env, sig, fs, stack, parentTid, childTid, tls);
            var plan := o.result.value;
            && plan.tid == env.newTid
            && plan.context == ChildContext(caller.context, fs, stack, tls)
            && plan.context.retval == 0
            && (plan.setChildTid.Some? <==> CHILD_SETTID in fs)
            && (CHILD_SETTID in fs ==> plan.setChildTid == Some(childTid) && childTid in env.writable)
            && (plan.clearChildTid.Some? <==> CHILD_CLEARTID in fs)
            && (CHILD_CLEARTID in fs ==> plan.clearChildTid == Some(childTid))
            && (o.parentTidWrite.Some? <==> PARENT_SETTID in fs)
            && (PARENT_SETTID in fs ==> o.parentTidWrite == Some(TidWrite(parentTid, env.newTid)))
  {
  }

  /** An untranslatable child-tid pointer under CHILD_SETTID fails before
      the new thread exists, so nothing is written. */
  lemma CloneChildTidFault(caller: Caller, env: Env, sig: nat, fs: set<CloneFlag>, stack: nat, parentTid: nat,
                           childTid: nat, tls: nat)
    requires !InvalidCombination(sig, fs)
    requires CHILD_SETTID in fs && childTid !in env.writable
    ensures CloneDecoded(caller, env, sig, fs, stack, parentTid, childTid, tls) == CloneOutcome(None, Err(EFAULT))
  {
  }

  /** THREAD: the child joins the caller's process on the caller's page
      table; no process, address space or table is created. */
  lemma CloneThreadPath(caller: Caller, env: Env, sig: nat, fs: set<CloneFlag>, stack: nat, parentTid: nat,
                        childTid: nat, tls: nat)
    requires THREAD in fs
    requires CloneDecoded(caller, env, sig, fs, stack, parentTid, childTid, tls).result.Ok?
    ensures var plan := CloneDecoded(caller, env, sig, fs, stack, parentTid, childTid, tls).result.value;
            plan.process == SameProcess(caller.pid) && plan.pageTableRoot == caller.pageTableRoot
  {
  }

  /** Without THREAD: the lineage parent is the caller's parent under PARENT
      (EINVAL if there is none, after the parent-tid store) and the caller's
      own process otherwise. */
  lemma CloneLineage(caller: Caller, env: Env, sig: nat, fs: set<CloneFlag>, stack: nat, parentTid: nat,
                     childTid: nat, tls: nat)
    requires THREAD !in fs
    requires CHILD_SETTID in fs ==> childTid in env.writable
    requires PARENT_SETTID in fs ==> parentTid in env.writable
    ensures var o := CloneDecoded(caller, env, sig, fs, stack, parentTid, childTid, tls);
            && (PARENT in fs && caller.parent.None? ==> o.result == Err(EINVAL))
            && (o.result.Ok? ==>
                  o.result.value.process.NewProcess? &&
                  o.result.value.process.parent == if PARENT in fs then caller.parent.value else caller.pid)
  {
  }

  /** Without THREAD, each resource is shared exactly when its flag asks
      for it and copied otherwise; umask and executable path are copied by
      value; the exit signal is recorded. */
  lemma CloneResourceDecisions(caller: Caller, env: Env, sig: nat, fs: set<CloneFlag>, stack: nat, parentTid: nat,
                               childTid: nat, tls: nat)
    requires THREAD !in fs
    requires CloneDecoded(caller, env, sig, fs, stack, parentTid, childTid, tls).result.Ok?
    ensures var plan := CloneDecoded(caller, env, sig, fs, stack, parentTid, childTid, tls).result.value;
            var p := plan.process;
            && p.NewProcess?
            && (p.aspace == Shared(caller.aspace) <==> VM in fs)
            && (VM in fs ==> plan.pageTableRoot == caller.pageTableRoot)
            && (VM !in fs ==> p.aspace == Copied(caller.aspace) && plan.pageTableRoot == env.aspaceCopy.value)
            && p.actions == SignalActionsAsWritten(fs, caller)
            && (PARENT !in fs ==> (p.actions == SharedActions(caller.actions) <==> SIGHAND in fs))
            && (p.files == Shared(caller.fdTable) <==> FILES in fs)
            && (FILES !in fs ==> p.files == Copied(caller.fdTable))
            && (p.fs == Shared(caller.fsContext) <==> FS in fs)
            && (FS !in fs ==> p.fs == Copied(caller.fsContext))
            && p.umask == caller.umask && p.exePath == caller.exePath
            && p.exitSignal == Signo(sig)
  {
  }

  /** A failed address-space copy is reported as the clone's error. */
  lemma CloneCopyFailure(caller: Caller, env: Env, sig: nat, fs: set<CloneFlag>, stack: nat, parentTid: nat,
                         childTid: nat, tls: nat)
    requires !InvalidCombination(sig, fs)
    requires THREAD !in fs && VM !in fs
    requires PARENT in fs ==> caller.parent.Some?
    requires CHILD_SETTID in fs ==> childTid in env.writable
    requires PARENT_SETTID in fs ==> parentTid in env.writable
    requires env.aspaceCopy.Err?
    ensures CloneDecoded(caller, env, sig, fs, stack, parentTid, childTid, tls).result == Err(env.aspaceCopy.error)
  {
  }

  /** The corrected clone shares the calling process's own signal-action
      table exactly under SIGHAND, whatever PARENT says. */
  lemma CorrectedCloneSharesCallerActions(caller: Caller, env: Env, sig: nat, fs: set<CloneFlag>, stack: nat,
                                          parentTid: nat, childTid: nat, tls: nat)
    requires THREAD !in fs
    requires CloneCorrected(caller, env, sig, fs, stack, parentTid, childTid, tls).result.Ok?
    ensures var p := CloneCorrected(caller, env, sig, fs, stack, parentTid, childTid, tls).result.value.process;
            p.NewProcess? && (p.actions == SharedActions(caller.actions) <==> SIGHAND in fs)
  {
  }

  /** Without PARENT the corrected clone is the clone as written. */
  lemma CorrectedCloneAgreesWithoutParent(caller: Caller, env: Env, sig: nat, fs: set<CloneFlag>, stack: nat,
                                          parentTid: nat, childTid: nat, tls: nat)
    requires PARENT !in fs
    ensures CloneCorrected(caller, env, sig, fs, stack, parentTid, childTid, tls)
         == CloneDecoded(caller, env, sig, fs, stack, parentTid, childTid, tls)
  {
    SignalActionsAgreeWithoutParent(fs, caller);
  }

  /** The fork flag word decodes to exit signal SIGCHLD and no flags. */
  lemma ForkWordDecodes()
    ensures ExitSignal(SIGCHLD) as nat == 17
    ensures FlagsOf(SIGCHLD) == {}
  {
    forall f ensures f !in FlagsOf(SIGCHLD) {
      FlagFacts(f);
    }
  }

  /** fork copies everything: a new child of the caller with a copied
      address space, default signal actions, copied descriptor table and
      filesystem context, exit signal SIGCHLD, the caller's registers with
      a zero return register, no tid bookkeeping; it fails only when the
      address-space copy fails, and returns the new tid. */
  lemma ForkCopiesEverything(caller: Caller, env: Env)
    ensures var o := SysFork(caller, env);
            && o.parentTidWrite.None?
            && (env.aspaceCopy.Err? ==> o.result == Err(env.aspaceCopy.error))
            && (env.aspaceCopy.Ok? ==>
                  && o.result == Ok(ClonePlan(env.newTid,
                                      NewProcess(caller.pid, Copied(caller.aspace), DefaultActions,
                                                 Copied(caller.fdTable), Copied(caller.fsContext),
                                                 caller.umask, caller.exePath, Some(17)),
                                      env.aspaceCopy.value,
                                      caller.context.(retval := 0),
                                      None, None))
                  && SysCloneReturn(o) == Ok(env.newTid))
  {
    ForkWordDecodes();
  }
}
