/** The per-CPU "accessing user memory" flag, which tells the page-fault
    handler that a fault inside the kernel is a user access. */
module UserAccess {

  /** The current CPU's flag and whatever else the closure works on. */
  datatype Cpu<S> = Cpu(accessing: bool, rest: S)

  /** `is_accessing_user_memory`. */
  predicate IsAccessingUserMemory<S>(c: Cpu<S>)
  {
    c.accessing
  }

  /** `access_user_memory`: set the flag, run the closure, clear the flag.
      The flag is cleared, not restored, and the closure's value is handed
      back unchanged. */
  function AccessUserMemory<S, R>(c: Cpu<S>, body: Cpu<S> -> (Cpu<S>, R)): (r: (Cpu<S>, R))
    ensures !IsAccessingUserMemory(r.0)
    ensures var inside := body(Cpu(true, c.rest));
            r.1 == inside.1 && r.0.rest == inside.0.rest
  {
    var (after, result) := body(c.(accessing := true));
    (after.(accessing := false), result)
  }

  /** The closure always sees the flag set, and what the call returns does
      not depend on the flag's value beforehand. */
  lemma AccessIgnoresPriorFlag<S, R>(c: Cpu<S>, body: Cpu<S> -> (Cpu<S>, R))
    ensures AccessUserMemory(c.(accessing := false), body) == AccessUserMemory(c.(accessing := true), body)
  {
  }

  /** Nesting: once an inner call returns, the flag reads false although
      the outer closure is still running. */
  lemma NestedAccessClearsEarly<S, R>(c: Cpu<S>, inner: Cpu<S> -> (Cpu<S>, R))
    ensures var outer := (c': Cpu<S>) => var r := AccessUserMemory(c', inner); (r.0, IsAccessingUserMemory(r.0));
            !AccessUserMemory(c, outer).1
  {
  }

  /** A closure that asks `is_accessing_user_memory` is told yes, and a
      caller that asks once the call has returned is told no. */
  lemma ClosureSeesFlagSet<S>(c: Cpu<S>)
    ensures var r := AccessUserMemory(c, (c': Cpu<S>) => (c', IsAccessingUserMemory(c')));
            r.1 && !IsAccessingUserMemory(r.0)
  {
  }
}
