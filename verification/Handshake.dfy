/**
 * Two processes that exchange bytes over pipes while one maps the other's identity: the semantics of the steps.
 * A step may fail and a process may die at any point; a process that ends closes all its pipe ends.
 */
module Processes {
  datatype Proc = Parent | Child

  datatype Pipe = Ready | Ack | Outcome

  /** One end of a pipe, held by one process. */
  datatype End = ReadEnd(owner: Proc, pipe: Pipe) | WriteEnd(owner: Proc, pipe: Pipe)

  datatype Op =
    | CloseRead(pipe: Pipe)
    | CloseWrite(pipe: Pipe)
    | Send(pipe: Pipe, byte: char)
    | Await(pipe: Pipe, byte: char)
    | ReadAny(pipe: Pipe)
    | Unshare
    | MapUid
    | DenySetgroups
    | MapGid
    | BecomeGid
    | BecomeUid
    | Work

  /** An operation, where it continues, and where it continues after a failure. */
  datatype Instr = Instr(op: Op, next: nat, fail: nat)

  /** Programs run forward only; leaving the last instruction ends the process. */
  ghost predicate Forward(program: seq<Instr>) {
    forall i :: 0 <= i < |program| ==> i < program[i].next <= |program| && i < program[i].fail <= |program|
  }

  /** The child's user namespace and credentials. */
  datatype Identity = Identity(unshared: bool, uidMapped: bool, denied: bool, gidMapped: bool, gidRoot: bool, uidRoot: bool)

  datatype State = State(parent: nat, child: nat, ready: seq<char>, ack: seq<char>, outcome: seq<char>, open: set<End>,
                         id: Identity)

  datatype System = System(parent: seq<Instr>, child: seq<Instr>)

  function Program(sys: System, p: Proc): seq<Instr> {
    if p.Parent? then sys.parent else sys.child
  }

  function Pc(s: State, p: Proc): nat {
    if p.Parent? then s.parent else s.child
  }

  function Buffer(s: State, pipe: Pipe): seq<char> {
    match pipe case Ready => s.ready case Ack => s.ack case Outcome => s.outcome
  }

  function WithBuffer(s: State, pipe: Pipe, bytes: seq<char>): State {
    match pipe
    case Ready => s.(ready := bytes)
    case Ack => s.(ack := bytes)
    case Outcome => s.(outcome := bytes)
  }

  predicate Alive(sys: System, s: State, p: Proc) {
    Pc(s, p) < |Program(sys, p)|
  }

  /** After fork both processes hold both ends of every pipe. */
  predicate Initial(s: State) {
    && s.parent == 0 && s.child == 0 && s.ready == [] && s.ack == [] && s.outcome == []
    && s.id == Identity(false, false, false, false, false, false)
    && (forall p: Proc, pipe: Pipe :: ReadEnd(p, pipe) in s.open && WriteEnd(p, pipe) in s.open)
  }

  /** Moves a process to an instruction; at the end of its program all its ends are closed. */
  function Goto(sys: System, s: State, p: Proc, pc: nat): State {
    var moved := if p.Parent? then s.(parent := pc) else s.(child := pc);
    if pc < |Program(sys, p)| then moved
    else moved.(open := set e | e in s.open && e.owner != p)
  }

  /** Moving changes nothing but the place, and the open ends at the end. */
  lemma GotoKeeps(sys: System, s: State, p: Proc, pc: nat)
    ensures var t := Goto(sys, s, p, pc);
            && t.id == s.id && t.ready == s.ready && t.ack == s.ack && t.outcome == s.outcome
            && t.parent == (if p.Parent? then pc else s.parent) && t.child == (if p.Child? then pc else s.child)
  {
  }

  predicate Readable(s: State, pipe: Pipe) {
    Buffer(s, pipe) != []
  }

  ghost predicate HasWriter(s: State, pipe: Pipe) {
    exists p :: WriteEnd(p, pipe) in s.open
  }

  ghost predicate HasReader(s: State, pipe: Pipe) {
    exists p :: ReadEnd(p, pipe) in s.open
  }

  /** The operation can succeed. */
  ghost predicate Possible(s: State, op: Op) {
    match op
    case Send(pipe, _) => HasReader(s, pipe)
    case Await(pipe, byte) => Readable(s, pipe) && Buffer(s, pipe)[0] == byte
    case ReadAny(pipe) => Readable(s, pipe)
    case _ => true
  }

  /** The effect of an operation that succeeds. */
  function Effect(s: State, p: Proc, op: Op): State {
    match op
    case CloseRead(pipe) => s.(open := s.open - {ReadEnd(p, pipe)})
    case CloseWrite(pipe) => s.(open := s.open - {WriteEnd(p, pipe)})
    case Send(pipe, byte) => WithBuffer(s, pipe, Buffer(s, pipe) + [byte])
    case Await(pipe, _) => Consumed(s, pipe)
    case ReadAny(pipe) => Consumed(s, pipe)
    case Unshare => s.(id := s.id.(unshared := true))
    case MapUid => s.(id := s.id.(uidMapped := true))
    case DenySetgroups => s.(id := s.id.(denied := true))
    case MapGid => s.(id := s.id.(gidMapped := true))
    case BecomeGid => s.(id := s.id.(gidRoot := true))
    case BecomeUid => s.(id := s.id.(uidRoot := true))
    case Work => s
  }

  function Consumed(s: State, pipe: Pipe): State {
    if Readable(s, pipe) then WithBuffer(s, pipe, Buffer(s, pipe)[1..]) else s
  }

  /** An operation that reports failure may have had its effect or not. */
  predicate AfterFailure(s: State, p: Proc, op: Op, t: State) {
    t == s || t == Effect(s, p, op)
  }

  ghost predicate Succeeds(sys: System, s: State, p: Proc, t: State) {
    && Alive(sys, s, p)
    && var instr := Program(sys, p)[Pc(s, p)];
       Possible(s, instr.op) && t == Goto(sys, Effect(s, p, instr.op), p, instr.next)
  }

  /** Closing always releases the end; every other operation may fail. */
  predicate MayFail(op: Op) {
    !op.CloseRead? && !op.CloseWrite?
  }

  ghost predicate Fails(sys: System, s: State, p: Proc, t: State) {
    && Alive(sys, s, p)
    && var instr := Program(sys, p)[Pc(s, p)];
       MayFail(instr.op) && exists u :: AfterFailure(s, p, instr.op, u) && t == Goto(sys, u, p, instr.fail)
  }

  predicate Dies(sys: System, s: State, p: Proc, t: State) {
    Alive(sys, s, p) && t == Goto(sys, s, p, |Program(sys, p)|)
  }

  /** One step of one process. */
  ghost predicate Step(sys: System, s: State, p: Proc, t: State) {
    Succeeds(sys, s, p, t) || Fails(sys, s, p, t) || Dies(sys, s, p, t)
  }

  /** A read with nothing to read and somebody who could still write. */
  ghost predicate Blocked(sys: System, s: State, p: Proc) {
    && Alive(sys, s, p)
    && var op := Program(sys, p)[Pc(s, p)].op;
       (op.Await? || op.ReadAny?) && !Readable(s, op.pipe) && HasWriter(s, op.pipe)
  }

  /** A sequence of states, each a step of some process after the one before. */
  ghost predicate Run(sys: System, states: seq<State>, procs: seq<Proc>) {
    && |states| == |procs| + 1 && Initial(states[0])
    && forall i :: 0 <= i < |procs| ==> Stepped(sys, states, procs, i)
  }

  ghost predicate Stepped(sys: System, states: seq<State>, procs: seq<Proc>, i: nat)
    requires |states| == |procs| + 1 && i < |procs|
  {
    Step(sys, states[i], procs[i], states[i + 1])
  }

  // ---- Runs are finite ----

  function Remaining(sys: System, s: State): int {
    |sys.parent| - s.parent + |sys.child| - s.child
  }

  predicate InProgram(sys: System, s: State) {
    s.parent <= |sys.parent| && s.child <= |sys.child|
  }

  lemma StepProgresses(sys: System, s: State, p: Proc, t: State)
    requires Forward(sys.parent) && Forward(sys.child) && InProgram(sys, s) && Step(sys, s, p, t)
    ensures InProgram(sys, t) && Remaining(sys, t) < Remaining(sys, s)
  {
    var instr := Program(sys, p)[Pc(s, p)];
    assert Forward(Program(sys, p)) && Pc(s, p) < instr.next && Pc(s, p) < instr.fail
        && instr.next <= |Program(sys, p)| && instr.fail <= |Program(sys, p)|;
    hide Forward, Effect, Possible;
    if Fails(sys, s, p, t) {
      var u :| AfterFailure(s, p, instr.op, u) && t == Goto(sys, u, p, instr.fail);
      EffectKeepsPlace(s, p, instr.op);
    } else if Succeeds(sys, s, p, t) {
      EffectKeepsPlace(s, p, instr.op);
    }
  }

  lemma EffectKeepsPlace(s: State, p: Proc, op: Op)
    ensures Effect(s, p, op).parent == s.parent && Effect(s, p, op).child == s.child
  {
  }

  /** However the processes interleave and fail, a run has at most one step per instruction. */
  lemma {:induction false} RunsAreFinite(sys: System, states: seq<State>, procs: seq<Proc>)
    requires Forward(sys.parent) && Forward(sys.child) && Run(sys, states, procs)
    ensures |procs| <= |sys.parent| + |sys.child|
    ensures InProgram(sys, states[|procs|]) && Remaining(sys, states[|procs|]) + |procs| <= |sys.parent| + |sys.child|
  {
    if procs != [] {
      var n := |procs| - 1;
      PrefixRuns(sys, states, procs);
      RunsAreFinite(sys, states[..n + 1], procs[..n]);
      assert Stepped(sys, states, procs, n);
      StepProgresses(sys, states[n], procs[n], states[n + 1]);
    }
  }

  lemma PrefixRuns(sys: System, states: seq<State>, procs: seq<Proc>)
    requires Run(sys, states, procs) && procs != []
    ensures var n := |procs| - 1; Run(sys, states[..n + 1], procs[..n])
  {
    hide Step;
    var n := |procs| - 1;
    var front, before := states[..n + 1], procs[..n];
    forall i | 0 <= i < n ensures Stepped(sys, front, before, i) {
      assert Stepped(sys, states, procs, i);
    }
  }

  // ---- Runs without failure ----

  /** The state after the next operation of a process succeeded. */
  function Completed(sys: System, s: State, p: Proc): State
    requires Alive(sys, s, p)
  {
    var instr := Program(sys, p)[Pc(s, p)];
    Goto(sys, Effect(s, p, instr.op), p, instr.next)
  }

  /** The state can be reached by some run. */
  ghost predicate Reachable(sys: System, s: State) {
    exists states, procs :: Run(sys, states, procs) && states[|procs|] == s
  }

  lemma StartReachable(sys: System, s: State)
    requires Initial(s)
    ensures Reachable(sys, s)
  {
    assert Run(sys, [s], []);
  }

  lemma NextReachable(sys: System, s: State, p: Proc)
    requires Reachable(sys, s) && Alive(sys, s, p) && Possible(s, Program(sys, p)[Pc(s, p)].op)
    ensures Reachable(sys, Completed(sys, s, p))
  {
    var states, procs :| Run(sys, states, procs) && states[|procs|] == s;
    var t := Completed(sys, s, p);
    assert Step(sys, s, p, t);
    hide Step;
    var longer, more := states + [t], procs + [p];
    forall i | 0 <= i < |more| ensures Stepped(sys, longer, more, i) {
      if i < |procs| {
        assert Stepped(sys, states, procs, i);
      }
    }
    assert Run(sys, longer, more) && longer[|more|] == t;
  }

  const ALL_ENDS: set<End> := {
    ReadEnd(Parent, Ready), WriteEnd(Parent, Ready), ReadEnd(Child, Ready), WriteEnd(Child, Ready),
    ReadEnd(Parent, Ack), WriteEnd(Parent, Ack), ReadEnd(Child, Ack), WriteEnd(Child, Ack),
    ReadEnd(Parent, Outcome), WriteEnd(Parent, Outcome), ReadEnd(Child, Outcome), WriteEnd(Child, Outcome)}

  const START := State(0, 0, [], [], [], ALL_ENDS, Identity(false, false, false, false, false, false))

  lemma StartIsInitial()
    ensures Initial(START)
  {
    forall p: Proc, pipe: Pipe ensures ReadEnd(p, pipe) in START.open && WriteEnd(p, pipe) in START.open {
      assert p.Parent? || p.Child?;
      assert pipe.Ready? || pipe.Ack? || pipe.Outcome?;
    }
  }

  // ---- What both protocols must keep ----

  predicate Mapped(id: Identity) {
    id.unshared && id.uidMapped && id.denied && id.gidMapped
  }

  /** The child takes on the root identity only when both maps and the denial of setgroups are written. */
  predicate Safe(id: Identity) {
    && (id.gidRoot || id.uidRoot ==> Mapped(id))
    && (id.gidMapped ==> id.denied)
    && (id.uidMapped || id.denied || id.gidMapped ==> id.unshared)
  }

  /** Whoever waits for a byte waits for a live process that is not waiting itself. */
  ghost predicate NobodyStuck(sys: System, s: State) {
    && (Blocked(sys, s, Parent) ==> Alive(sys, s, Child) && !Blocked(sys, s, Child))
    && (Blocked(sys, s, Child) ==> Alive(sys, s, Parent) && !Blocked(sys, s, Parent))
  }

  /** Every process that has not ended waits for a byte. */
  ghost predicate Quiet(sys: System, s: State) {
    forall p :: Alive(sys, s, p) ==> Blocked(sys, s, p)
  }

  predicate Ended(sys: System, s: State) {
    !Alive(sys, s, Parent) && !Alive(sys, s, Child)
  }

  /** When nobody can go on, it is because both processes ended, not because a read waits. */
  lemma QuietMeansEnded(sys: System, s: State)
    requires NobodyStuck(sys, s)
    ensures Quiet(sys, s) <==> Ended(sys, s)
  {
    hide Blocked, Alive;
    if Quiet(sys, s) {
      assert Alive(sys, s, Parent) ==> Blocked(sys, s, Parent);
      assert Alive(sys, s, Child) ==> Blocked(sys, s, Child);
    }
    forall p | Ended(sys, s) ensures !Alive(sys, s, p) {
      assert p.Parent? || p.Child?;
    }
  }
}

/**
 * The handshake of the namespace runner (mkosi/debian/namespace_runner.c): the process that stays behind maps the
 * one that entered a new user namespace; any failure ends the process that sees it.
 */
module RunnerHandshake {
  import opened Processes

  const END := 9

  function At(pc: nat, op: Op): Instr {
    Instr(op, pc + 1, END)
  }

  /** `map_child_identity_and_exit`. */
  const PARENT: seq<Instr> := [
    At(0, CloseWrite(Ready)), At(1, CloseRead(Ack)), At(2, Await(Ready, 'U')), At(3, MapUid), At(4, DenySetgroups),
    At(5, MapGid), At(6, Send(Ack, 'U')), At(7, CloseRead(Ready)), At(8, CloseWrite(Ack))]

  /** `enter_mapped_user_namespace`. */
  const CHILD: seq<Instr> := [
    At(0, CloseRead(Ready)), At(1, CloseWrite(Ack)), At(2, Unshare), At(3, Send(Ready, 'U')), At(4, Await(Ack, 'U')),
    At(5, BecomeGid), At(6, BecomeUid), At(7, CloseWrite(Ready)), At(8, CloseRead(Ack))]

  const SYSTEM := System(PARENT, CHILD)

  /** What holds of the child's identity at each point of the two programs. */
  predicate IdentityInv(s: State) {
    && Safe(s.id)
    && (3 <= s.parent < END || s.ready != [] || 3 <= s.child < END ==> s.id.unshared)
    && (4 <= s.parent < END ==> s.id.uidMapped)
    && (5 <= s.parent < END ==> s.id.denied)
    && (6 <= s.parent < END || s.ack != [] || 5 <= s.child < END ==> Mapped(s.id))
  }

  /** Who holds which write end, and that the child waits only after it sent its byte. */
  predicate PipeInv(s: State) {
    && s.parent <= END && s.child <= END
    && (s.parent >= 1 ==> WriteEnd(Parent, Ready) !in s.open)
    && (s.child >= 2 ==> WriteEnd(Child, Ack) !in s.open)
    && (s.parent == END ==> forall e :: e in s.open ==> e.owner != Parent)
    && (s.child == END ==> forall e :: e in s.open ==> e.owner != Child)
    && (s.child == 4 ==> s.ready != [] || s.parent >= 3)
  }

  predicate Inv(s: State) {
    IdentityInv(s) && PipeInv(s)
  }

  lemma ParentSucceeds(s: State, t: State)
    requires Inv(s) && Succeeds(SYSTEM, s, Parent, t)
    ensures Inv(t)
  {
  }

  lemma ChildSucceeds(s: State, t: State)
    requires Inv(s) && Succeeds(SYSTEM, s, Child, t)
    ensures Inv(t)
  {
  }

  lemma ParentFails(s: State, t: State)
    requires Inv(s) && Fails(SYSTEM, s, Parent, t)
    ensures Inv(t)
  {
    hide IdentityInv, PipeInv, Fails;
    ParentFailureIdentity(s, t);
    ParentFailurePipes(s, t);
  }

  lemma ParentFailureIdentity(s: State, t: State)
    requires IdentityInv(s) && PipeInv(s) && Fails(SYSTEM, s, Parent, t)
    ensures IdentityInv(t)
  {
    hide Goto;
    var u :| AfterFailure(s, Parent, PARENT[s.parent].op, u) && t == Goto(SYSTEM, u, Parent, PARENT[s.parent].fail);
    GotoKeeps(SYSTEM, u, Parent, PARENT[s.parent].fail);
    ParentFailureEffect(s, u, PARENT[s.parent].op);
    hide Effect, AfterFailure;
  }

  /** What a failed operation of the parent may have done. */
  lemma ParentFailureEffect(s: State, u: State, op: Op)
    requires s.parent < |PARENT| && op == PARENT[s.parent].op && MayFail(op) && AfterFailure(s, Parent, op, u)
    ensures u.parent == s.parent && u.child == s.child && (u.ready != [] ==> s.ready != [])
    ensures u.ack != [] ==> s.ack != [] || s.parent == 6
    ensures u.id == s.id || (s.parent == 3 && u.id == s.id.(uidMapped := true))
            || (s.parent == 4 && u.id == s.id.(denied := true)) || (s.parent == 5 && u.id == s.id.(gidMapped := true))
  {
  }

  lemma ParentFailurePipes(s: State, t: State)
    requires PipeInv(s) && Fails(SYSTEM, s, Parent, t)
    ensures PipeInv(t)
  {
    var u :| AfterFailure(s, Parent, PARENT[s.parent].op, u) && t == Goto(SYSTEM, u, Parent, PARENT[s.parent].fail);
  }

  lemma ChildFails(s: State, t: State)
    requires Inv(s) && Fails(SYSTEM, s, Child, t)
    ensures Inv(t)
  {
    hide IdentityInv, PipeInv, Fails;
    ChildFailureIdentity(s, t);
    ChildFailurePipes(s, t);
  }

  lemma ChildFailureIdentity(s: State, t: State)
    requires IdentityInv(s) && PipeInv(s) && Fails(SYSTEM, s, Child, t)
    ensures IdentityInv(t)
  {
    hide Goto;
    var u :| AfterFailure(s, Child, CHILD[s.child].op, u) && t == Goto(SYSTEM, u, Child, CHILD[s.child].fail);
    GotoKeeps(SYSTEM, u, Child, CHILD[s.child].fail);
    ChildFailureEffect(s, u, CHILD[s.child].op);
    hide Effect, AfterFailure;
  }

  /** What a failed operation of the child may have done. */
  lemma ChildFailureEffect(s: State, u: State, op: Op)
    requires s.child < |CHILD| && op == CHILD[s.child].op && MayFail(op) && AfterFailure(s, Child, op, u)
    ensures u.parent == s.parent && u.child == s.child && (u.ack != [] ==> s.ack != [])
    ensures u.ready != [] ==> s.ready != [] || s.child == 3
    ensures u.id == s.id || (s.child == 2 && u.id == s.id.(unshared := true))
            || (s.child == 5 && u.id == s.id.(gidRoot := true)) || (s.child == 6 && u.id == s.id.(uidRoot := true))
  {
  }

  lemma ChildFailurePipes(s: State, t: State)
    requires PipeInv(s) && Fails(SYSTEM, s, Child, t)
    ensures PipeInv(t)
  {
    var u :| AfterFailure(s, Child, CHILD[s.child].op, u) && t == Goto(SYSTEM, u, Child, CHILD[s.child].fail);
  }

  lemma DeathKeeps(s: State, p: Proc, t: State)
    requires Inv(s) && Dies(SYSTEM, s, p, t)
    ensures Inv(t)
  {
  }

  lemma StepKeeps(s: State, p: Proc, t: State)
    requires Inv(s) && Step(SYSTEM, s, p, t)
    ensures Inv(t)
  {
    hide Inv, Succeeds, Fails, Dies;
    if Dies(SYSTEM, s, p, t) {
      DeathKeeps(s, p, t);
    } else if Succeeds(SYSTEM, s, p, t) {
      if p.Parent? { ParentSucceeds(s, t); } else { ChildSucceeds(s, t); }
    } else {
      if p.Parent? { ParentFails(s, t); } else { ChildFails(s, t); }
    }
  }

  lemma {:induction false} RunKeeps(states: seq<State>, procs: seq<Proc>)
    requires Run(SYSTEM, states, procs)
    ensures forall i :: 0 <= i < |states| ==> Inv(states[i])
  {
    hide Step;
    if procs != [] {
      hide Inv;
      var n := |procs| - 1;
      PrefixRuns(SYSTEM, states, procs);
      RunKeeps(states[..n + 1], procs[..n]);
      assert forall i :: 0 <= i <= n ==> states[..n + 1][i] == states[i];
      assert Stepped(SYSTEM, states, procs, n);
      StepKeeps(states[n], procs[n], states[n + 1]);
    }
  }

  lemma NotStuck(s: State)
    requires PipeInv(s)
    ensures NobodyStuck(SYSTEM, s)
  {
  }

  /**
   * Every run, whatever fails and however the processes interleave: the child becomes root only after both maps and
   * the denial of setgroups, no read waits for ever, and the run ends within eighteen steps.
   */
  lemma RunnerHandshakeSafe(states: seq<State>, procs: seq<Proc>)
    requires Run(SYSTEM, states, procs)
    ensures forall i :: 0 <= i < |states| ==> Safe(states[i].id) && NobodyStuck(SYSTEM, states[i])
    ensures forall i :: 0 <= i < |states| ==> (Quiet(SYSTEM, states[i]) <==> Ended(SYSTEM, states[i]))
    ensures |procs| <= 18
  {
    hide *;
    RunKeeps(states, procs);
    Consequences(states);
    Bounded(states, procs);
  }

  lemma Consequences(states: seq<State>)
    requires forall i :: 0 <= i < |states| ==> Inv(states[i])
    ensures forall i :: 0 <= i < |states| ==> Safe(states[i].id) && NobodyStuck(SYSTEM, states[i])
    ensures forall i :: 0 <= i < |states| ==> (Quiet(SYSTEM, states[i]) <==> Ended(SYSTEM, states[i]))
  {
    hide NobodyStuck, Safe, Quiet, Ended;
    forall i | 0 <= i < |states|
      ensures Safe(states[i].id) && NobodyStuck(SYSTEM, states[i])
      ensures Quiet(SYSTEM, states[i]) <==> Ended(SYSTEM, states[i])
    {
      NotStuck(states[i]);
      QuietMeansEnded(SYSTEM, states[i]);
    }
  }

  lemma Bounded(states: seq<State>, procs: seq<Proc>)
    requires Run(SYSTEM, states, procs)
    ensures |procs| <= 18
  {
    hide Run;
    RunsAreFinite(SYSTEM, states, procs);
  }

  /** The protocol can succeed: without failures the child becomes root. */
  lemma RootIsReached()
    ensures exists s :: Reachable(SYSTEM, s) && s.id.gidRoot && s.id.uidRoot && Mapped(s.id)
  {
    hide Reachable;
    var p2 := Greeted();
    var p7 := Answered(p2);
    NextReachable(SYSTEM, p7, Child);
    var c5 := Completed(SYSTEM, p7, Child);
    NextReachable(SYSTEM, c5, Child);
    var c6 := Completed(SYSTEM, c5, Child);
    NextReachable(SYSTEM, c6, Child);
    assert Completed(SYSTEM, c6, Child).id.uidRoot;
  }

  /** Up to the byte that the child sends. */
  lemma Greeted() returns (s: State)
    ensures Reachable(SYSTEM, s) && s.parent == 0 && s.child == 4 && s.ready == ['U'] && s.ack == []
    ensures ReadEnd(Child, Ack) in s.open && s.id == Identity(true, false, false, false, false, false)
  {
    hide Reachable, Initial;
    StartIsInitial();
    StartReachable(SYSTEM, START);
    NextReachable(SYSTEM, START, Child);
    var c1 := Completed(SYSTEM, START, Child);
    NextReachable(SYSTEM, c1, Child);
    var c2 := Completed(SYSTEM, c1, Child);
    NextReachable(SYSTEM, c2, Child);
    var c3 := Completed(SYSTEM, c2, Child);
    assert ReadEnd(Parent, Ready) in c3.open;
    NextReachable(SYSTEM, c3, Child);
    s := Completed(SYSTEM, c3, Child);
  }

  /** From there to the byte that the parent answers with. */
  lemma Answered(s: State) returns (t: State)
    requires Reachable(SYSTEM, s) && s.parent == 0 && s.child == 4 && s.ready == ['U'] && s.ack == []
    requires ReadEnd(Child, Ack) in s.open && s.id == Identity(true, false, false, false, false, false)
    ensures Reachable(SYSTEM, t) && t.parent == 7 && t.child == 4 && t.ack == ['U']
    ensures t.id == Identity(true, true, true, true, false, false)
  {
    hide Reachable;
    NextReachable(SYSTEM, s, Parent);
    var p1 := Completed(SYSTEM, s, Parent);
    NextReachable(SYSTEM, p1, Parent);
    var p2 := Completed(SYSTEM, p1, Parent);
    NextReachable(SYSTEM, p2, Parent);
    var p3 := Completed(SYSTEM, p2, Parent);
    NextReachable(SYSTEM, p3, Parent);
    var p4 := Completed(SYSTEM, p3, Parent);
    NextReachable(SYSTEM, p4, Parent);
    var p5 := Completed(SYSTEM, p4, Parent);
    NextReachable(SYSTEM, p5, Parent);
    var p6 := Completed(SYSTEM, p5, Parent);
    assert ReadEnd(Child, Ack) in p6.open;
    NextReachable(SYSTEM, p6, Parent);
    t := Completed(SYSTEM, p6, Parent);
  }
}

/**
 * The handshake of the kernel preflight (mkosi/private/kernel_preflight.c): the parent answers whether it wrote the
 * maps, the child reports its result over a third pipe, and a failed step still reports.
 */
module PreflightHandshake {
  import opened Processes

  /** `map_setup_child_identity` between the closing of pipe ends in `actual_namespace_setup`. */
  const PARENT: seq<Instr> := [
    Instr(CloseWrite(Ready), 1, 1), Instr(CloseRead(Ack), 2, 2), Instr(CloseWrite(Outcome), 3, 3),
    Instr(Await(Ready, 'R'), 4, 9), Instr(DenySetgroups, 5, 8), Instr(MapGid, 6, 8), Instr(MapUid, 7, 8),
    Instr(Send(Ack, 'A'), 9, 9), Instr(Send(Ack, 'F'), 9, 9), Instr(CloseRead(Ready), 10, 10),
    Instr(CloseWrite(Ack), 11, 11), Instr(ReadAny(Outcome), 12, 12), Instr(CloseRead(Outcome), 13, 13)]

  /** `child_namespace_setup` and the report; the steps after the root transition are one `Work`. */
  const CHILD: seq<Instr> := [
    Instr(CloseRead(Ready), 1, 1), Instr(CloseWrite(Ack), 2, 2), Instr(CloseRead(Outcome), 3, 3),
    Instr(Unshare, 4, 9), Instr(Send(Ready, 'R'), 5, 9), Instr(Await(Ack, 'A'), 6, 9), Instr(BecomeGid, 7, 9),
    Instr(BecomeUid, 8, 9), Instr(Work, 9, 9), Instr(Send(Outcome, 'r'), 10, 10)]

  const SYSTEM := System(PARENT, CHILD)

  /** What holds of the child's identity at each point of the two programs. */
  predicate IdentityInv(s: State) {
    && Safe(s.id)
    && (4 <= s.parent <= 8 || s.ready != [] || 4 <= s.child <= 8 ==> s.id.unshared)
    && (5 <= s.parent <= 7 ==> s.id.denied)
    && (6 <= s.parent <= 7 ==> s.id.gidMapped)
    && (s.parent == 7 || 'A' in s.ack || 6 <= s.child <= 8 ==> Mapped(s.id))
  }

  /** Who holds which write end, and that the child waits only after it sent its byte. */
  predicate PipeInv(s: State) {
    && s.parent <= 13 && s.child <= 10
    && (s.parent >= 1 ==> WriteEnd(Parent, Ready) !in s.open)
    && (s.parent >= 3 ==> WriteEnd(Parent, Outcome) !in s.open)
    && (s.parent >= 11 ==> WriteEnd(Parent, Ack) !in s.open)
    && (s.child >= 2 ==> WriteEnd(Child, Ack) !in s.open)
    && (s.parent == 13 ==> forall e :: e in s.open ==> e.owner != Parent)
    && (s.child == 10 ==> forall e :: e in s.open ==> e.owner != Child)
    && (s.child == 5 ==> s.ready != [] || s.parent >= 4)
  }

  predicate Inv(s: State) {
    IdentityInv(s) && PipeInv(s)
  }

  lemma ParentSucceeds(s: State, t: State)
    requires Inv(s) && Succeeds(SYSTEM, s, Parent, t)
    ensures Inv(t)
  {
    hide IdentityInv, PipeInv, Succeeds;
    ParentKeepsIdentity(s, t);
    ParentKeepsPipes(s, t);
  }

  lemma ParentKeepsIdentity(s: State, t: State)
    requires IdentityInv(s) && PipeInv(s) && Succeeds(SYSTEM, s, Parent, t)
    ensures IdentityInv(t)
  {
    hide Goto;
    var instr := PARENT[s.parent];
    GotoKeeps(SYSTEM, Effect(s, Parent, instr.op), Parent, instr.next);
  }

  lemma ParentKeepsPipes(s: State, t: State)
    requires PipeInv(s) && Succeeds(SYSTEM, s, Parent, t)
    ensures PipeInv(t)
  {
  }

  lemma ChildSucceeds(s: State, t: State)
    requires Inv(s) && Succeeds(SYSTEM, s, Child, t)
    ensures Inv(t)
  {
  }

  lemma ParentFails(s: State, t: State)
    requires Inv(s) && Fails(SYSTEM, s, Parent, t)
    ensures Inv(t)
  {
    hide IdentityInv, PipeInv, Fails;
    ParentFailureIdentity(s, t);
    ParentFailurePipes(s, t);
  }

  lemma ParentFailureIdentity(s: State, t: State)
    requires IdentityInv(s) && PipeInv(s) && Fails(SYSTEM, s, Parent, t)
    ensures IdentityInv(t)
  {
    hide Goto;
    var u :| AfterFailure(s, Parent, PARENT[s.parent].op, u) && t == Goto(SYSTEM, u, Parent, PARENT[s.parent].fail);
    GotoKeeps(SYSTEM, u, Parent, PARENT[s.parent].fail);
  }

  lemma ParentFailurePipes(s: State, t: State)
    requires PipeInv(s) && Fails(SYSTEM, s, Parent, t)
    ensures PipeInv(t)
  {
    var u :| AfterFailure(s, Parent, PARENT[s.parent].op, u) && t == Goto(SYSTEM, u, Parent, PARENT[s.parent].fail);
  }

  lemma ChildFails(s: State, t: State)
    requires Inv(s) && Fails(SYSTEM, s, Child, t)
    ensures Inv(t)
  {
    hide IdentityInv, PipeInv, Fails;
    ChildFailureIdentity(s, t);
    ChildFailurePipes(s, t);
  }

  lemma ChildFailureIdentity(s: State, t: State)
    requires IdentityInv(s) && PipeInv(s) && Fails(SYSTEM, s, Child, t)
    ensures IdentityInv(t)
  {
    hide Goto;
    var u :| AfterFailure(s, Child, CHILD[s.child].op, u) && t == Goto(SYSTEM, u, Child, CHILD[s.child].fail);
    GotoKeeps(SYSTEM, u, Child, CHILD[s.child].fail);
    ChildFailureEffect(s, u, CHILD[s.child].op);
    hide Effect, AfterFailure;
  }

  /** Whatever the child's failed operation did, the parent's side of the identity and the answer stay. */
  lemma ChildFailureEffect(s: State, u: State, op: Op)
    requires s.child < |CHILD| && op == CHILD[s.child].op && MayFail(op) && AfterFailure(s, Child, op, u)
    ensures u.parent == s.parent && u.child == s.child && ('A' in u.ack ==> 'A' in s.ack)
    ensures u.ready != [] ==> s.ready != [] || s.child == 4
    ensures u.id == s.id || (s.child == 3 && u.id == s.id.(unshared := true))
            || (s.child == 6 && u.id == s.id.(gidRoot := true)) || (s.child == 7 && u.id == s.id.(uidRoot := true))
  {
  }

  lemma ChildFailurePipes(s: State, t: State)
    requires PipeInv(s) && Fails(SYSTEM, s, Child, t)
    ensures PipeInv(t)
  {
    var u :| AfterFailure(s, Child, CHILD[s.child].op, u) && t == Goto(SYSTEM, u, Child, CHILD[s.child].fail);
  }

  lemma DeathKeeps(s: State, p: Proc, t: State)
    requires Inv(s) && Dies(SYSTEM, s, p, t)
    ensures Inv(t)
  {
  }

  lemma StepKeeps(s: State, p: Proc, t: State)
    requires Inv(s) && Step(SYSTEM, s, p, t)
    ensures Inv(t)
  {
    hide Inv, Succeeds, Fails, Dies;
    if Dies(SYSTEM, s, p, t) {
      DeathKeeps(s, p, t);
    } else if Succeeds(SYSTEM, s, p, t) {
      if p.Parent? { ParentSucceeds(s, t); } else { ChildSucceeds(s, t); }
    } else {
      if p.Parent? { ParentFails(s, t); } else { ChildFails(s, t); }
    }
  }

  lemma {:induction false} RunKeeps(states: seq<State>, procs: seq<Proc>)
    requires Run(SYSTEM, states, procs)
    ensures forall i :: 0 <= i < |states| ==> Inv(states[i])
  {
    hide Step;
    if procs != [] {
      hide Inv;
      var n := |procs| - 1;
      PrefixRuns(SYSTEM, states, procs);
      RunKeeps(states[..n + 1], procs[..n]);
      assert forall i :: 0 <= i <= n ==> states[..n + 1][i] == states[i];
      assert Stepped(SYSTEM, states, procs, n);
      StepKeeps(states[n], procs[n], states[n + 1]);
    }
  }

  lemma NotStuck(s: State)
    requires PipeInv(s)
    ensures NobodyStuck(SYSTEM, s)
  {
    if s.parent == 11 && s.child == 5 {
      forall p: Proc ensures WriteEnd(p, Ack) !in s.open {
        assert p == Parent || p == Child;
      }
      assert !HasWriter(s, Ack);
    }
    forall p: Proc, pipe: Pipe | WriteEnd(p, pipe) in s.open ensures Alive(SYSTEM, s, p) {
      assert WriteEnd(p, pipe).owner == p;
    }
  }

  /**
   * Every run, whatever fails and however the processes interleave: the child becomes root only after both maps and
   * the denial of setgroups, no read of any of the three pipes waits for ever, and the run is finite.
   */
  lemma PreflightHandshakeSafe(states: seq<State>, procs: seq<Proc>)
    requires Run(SYSTEM, states, procs)
    ensures forall i :: 0 <= i < |states| ==> Safe(states[i].id) && NobodyStuck(SYSTEM, states[i])
    ensures forall i :: 0 <= i < |states| ==> (Quiet(SYSTEM, states[i]) <==> Ended(SYSTEM, states[i]))
    ensures |procs| <= 23
  {
    hide *;
    RunKeeps(states, procs);
    Consequences(states);
    Bounded(states, procs);
  }

  lemma Consequences(states: seq<State>)
    requires forall i :: 0 <= i < |states| ==> Inv(states[i])
    ensures forall i :: 0 <= i < |states| ==> Safe(states[i].id) && NobodyStuck(SYSTEM, states[i])
    ensures forall i :: 0 <= i < |states| ==> (Quiet(SYSTEM, states[i]) <==> Ended(SYSTEM, states[i]))
  {
    hide NobodyStuck, Safe, Quiet, Ended;
    forall i | 0 <= i < |states|
      ensures Safe(states[i].id) && NobodyStuck(SYSTEM, states[i])
      ensures Quiet(SYSTEM, states[i]) <==> Ended(SYSTEM, states[i])
    {
      NotStuck(states[i]);
      QuietMeansEnded(SYSTEM, states[i]);
    }
  }

  lemma Bounded(states: seq<State>, procs: seq<Proc>)
    requires Run(SYSTEM, states, procs)
    ensures |procs| <= 23
  {
    hide Run;
    RunsAreFinite(SYSTEM, states, procs);
  }

  /** The protocol can succeed: without failures the child becomes root. */
  lemma RootIsReached()
    ensures exists s :: Reachable(SYSTEM, s) && s.id.gidRoot && s.id.uidRoot && Mapped(s.id)
  {
    hide Reachable, Initial;
    var s := Greeted();
    var t := Answered(s);
    NextReachable(SYSTEM, t, Child);
    var c6 := Completed(SYSTEM, t, Child);
    NextReachable(SYSTEM, c6, Child);
    var c7 := Completed(SYSTEM, c6, Child);
    NextReachable(SYSTEM, c7, Child);
    assert Completed(SYSTEM, c7, Child).id.uidRoot;
  }

  /** Up to the byte that the child sends. */
  lemma Greeted() returns (s: State)
    ensures Reachable(SYSTEM, s) && s.parent == 0 && s.child == 5 && s.ready == ['R'] && s.ack == []
    ensures ReadEnd(Child, Ack) in s.open && s.id == Identity(true, false, false, false, false, false)
  {
    hide Reachable, Initial;
    StartIsInitial();
    StartReachable(SYSTEM, START);
    NextReachable(SYSTEM, START, Child);
    var c1 := Completed(SYSTEM, START, Child);
    NextReachable(SYSTEM, c1, Child);
    var c2 := Completed(SYSTEM, c1, Child);
    NextReachable(SYSTEM, c2, Child);
    var c3 := Completed(SYSTEM, c2, Child);
    NextReachable(SYSTEM, c3, Child);
    var c4 := Completed(SYSTEM, c3, Child);
    assert ReadEnd(Parent, Ready) in c4.open;
    NextReachable(SYSTEM, c4, Child);
    s := Completed(SYSTEM, c4, Child);
  }

  /** From there to the byte that the parent answers with. */
  lemma Answered(s: State) returns (t: State)
    requires Reachable(SYSTEM, s) && s.parent == 0 && s.child == 5 && s.ready == ['R'] && s.ack == []
    requires ReadEnd(Child, Ack) in s.open && s.id == Identity(true, false, false, false, false, false)
    ensures Reachable(SYSTEM, t) && t.child == 5 && t.ack == ['A']
    ensures t.id == Identity(true, true, true, true, false, false)
  {
    hide Reachable;
    NextReachable(SYSTEM, s, Parent);
    var p1 := Completed(SYSTEM, s, Parent);
    NextReachable(SYSTEM, p1, Parent);
    var p2 := Completed(SYSTEM, p1, Parent);
    NextReachable(SYSTEM, p2, Parent);
    var p3 := Completed(SYSTEM, p2, Parent);
    NextReachable(SYSTEM, p3, Parent);
    var p4 := Completed(SYSTEM, p3, Parent);
    NextReachable(SYSTEM, p4, Parent);
    var p5 := Completed(SYSTEM, p4, Parent);
    NextReachable(SYSTEM, p5, Parent);
    var p6 := Completed(SYSTEM, p5, Parent);
    NextReachable(SYSTEM, p6, Parent);
    var p7 := Completed(SYSTEM, p6, Parent);
    assert ReadEnd(Child, Ack) in p7.open;
    NextReachable(SYSTEM, p7, Parent);
    t := Completed(SYSTEM, p7, Parent);
  }
}
