/**
 * The simulator's main loop over already-decoded commands: each command is
 * dispatched to the MMU until the input ends (exit code 0) or a command could
 * not be decoded (exit code 1).
 */
module Program {
  import opened Trace
  import opened Paging
  import opened Invariants
  import opened Mmu

  /** One line of the command file, as the parser hands it over. */
  datatype Command = Execute(op: Op) | EndOfInput | Malformed

  const FAIL_CODE: nat := 1

  /** The exit status and everything printed. */
  datatype Exit = Exit(code: nat, trace: seq<Event>)

  /** Dispatch from state m; running out of commands counts as the end of the input. */
  function Dispatch(m: Machine, cmds: seq<Command>): (e: Exit)
    requires Shape(m)
    ensures e.code == 0 || e.code == FAIL_CODE
    ensures e.code == FAIL_CODE ==> Malformed in cmds
    decreases |cmds|
  {
    if cmds == [] then Exit(0, [])
    else
      match cmds[0]
      case EndOfInput => Exit(0, [])
      case Malformed => Exit(FAIL_CODE, [])
      case Execute(op) =>
        var s := Exec(m, op);
        var r := Dispatch(s.next, cmds[1..]);
        Exit(r.code, s.trace + r.trace)
  }

  /** The operations of the commands before the first end-of-input or malformed command. */
  function LeadingOps(cmds: seq<Command>): (ops: seq<Op>)
    ensures |ops| <= |cmds|
    ensures forall i :: 0 <= i < |ops| ==> cmds[i] == Execute(ops[i])
    ensures |ops| < |cmds| ==> !cmds[|ops|].Execute?
  {
    if cmds == [] || !cmds[0].Execute? then [] else [cmds[0].op] + LeadingOps(cmds[1..])
  }

  /**
   * The loop executes exactly the commands before the first stop, in order,
   * and fails exactly when that stop is a malformed command; every state it
   * passes through satisfies the engine's invariant.
   */
  lemma {:induction false} DispatchRunsLeadingOps(m: Machine, cmds: seq<Command>)
    requires Invariant(m)
    ensures var ops := LeadingOps(cmds);
      && Dispatch(m, cmds).code == (if |ops| < |cmds| && cmds[|ops|].Malformed? then FAIL_CODE else 0)
      && Dispatch(m, cmds).trace == RunOps(m, ops).trace
      && Invariant(RunOps(m, ops).final)
    decreases |cmds|
  {
    RunPreservesInvariant(m, LeadingOps(cmds));
    if cmds != [] && cmds[0].Execute? {
      var s := Exec(m, cmds[0].op);
      ExecPreservesInvariant(m, cmds[0].op);
      DispatchRunsLeadingOps(s.next, cmds[1..]);
      assert LeadingOps(cmds)[1..] == LeadingOps(cmds[1..]);
    }
  }

  /** One dispatched command: the MMU call the command names. */
  method Perform(mmu: MMU, op: Op) returns (lines: seq<Event>)
    requires mmu.Valid()
    modifies mmu, mmu.Repr
    ensures mmu.Valid()
    ensures mmu.State() == Exec(old(mmu.State()), op).next && lines == Exec(old(mmu.State()), op).trace
  {
    match op
    case DumpMmu => lines := mmu.ReadMMU();
    case DumpPageTable => lines := mmu.ReadPT();
    case ReadOp(a) => lines := mmu.ReadVA(a);
    case WriteOp(a) => lines := mmu.WriteVA(a);
  }

  /** pagingProgramLoop: builds the MMU, then reads and dispatches commands until the input stops. */
  method PagingProgramLoop(cmds: seq<Command>) returns (code: nat, trace: seq<Event>)
    ensures Exit(code, trace) == Dispatch(Init(), cmds)
  {
    var mmu := new MMU();
    trace := [];
    var i := 0;
    var loopAlive := true;
    while loopAlive
      invariant mmu.Valid() && fresh(mmu.Repr)
      invariant 0 <= i <= |cmds|
      invariant loopAlive ==>
        var rest := Dispatch(mmu.State(), cmds[i..]);
        Dispatch(Init(), cmds) == Exit(rest.code, trace + rest.trace)
      invariant !loopAlive ==> Dispatch(Init(), cmds) == Exit(0, trace)
      decreases |cmds| - i + (if loopAlive then 1 else 0)
    {
      // past the last line the parser reports end of file
      var command := if i < |cmds| then cmds[i] else EndOfInput;
      ghost var rest := cmds[i..];
      if i < |cmds| {
        i := i + 1;
      }
      match command
      case Execute(op) =>
        var lines := Perform(mmu, op);
        assert rest[1..] == cmds[i..];
        trace := trace + lines;
      case Malformed =>
        return FAIL_CODE, trace;
      case EndOfInput =>
        loopAlive := false;
    }
    code := 0;
  }
}
