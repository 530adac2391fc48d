/** The page fault as a protocol between the client and the memory manager.

    The client sets the requested page, tests the present bit, sends SIGUSR1
    and waits on the semaphore; the manager runs page_fault in the signal
    handler, one step at a time, and posts.  Every interleaving of these steps
    is shown to behave like the atomic Access of PagedMemory. */
module FaultHandshake {
  import opened PageTable
  import opened PagedMemory

  datatype ClientPc =
    | Idle
    | Testing(op: Op)     // req_pageno is set, the present bit is tested next
    | Killing(op: Op)     // the page was absent, SIGUSR1 is sent next
    | Waiting(op: Op)     // in sem_wait
    | Counting(op: Op)    // in countUsed, and setting CHANGED for a write
    | Moving(op: Op)      // transferring the data cell

  datatype ManagerPc =
    | Pausing
    | Finding
    | Storing(frame: nat)
    | Unloading(frame: nat)
    | Loading(frame: nat)
    | Fetching
    | Posting

  /** The shared structure, the signal, the two programs, and what the client has done so far. */
  datatype State = State(
    mem: Memory, reqPageno: int, sema: nat, pending: bool,
    client: ClientPc, manager: ManagerPc,
    ops: seq<Op>, outputs: seq<int>)

  /** What does not change: the policy, the page size and the memory at the start. */
  datatype Setup = Setup(policy: Policy, pageSize: nat, start: Memory)

  ghost predicate Proper(k: Setup) {
    Sound(k.start, k.pageSize)
  }

  ghost function Init(k: Setup): State {
    State(k.start, VOID_IDX, 0, false, Idle, Pausing, [], [])
  }

  /** The memory after the completed accesses, each taken as one atomic step. */
  ghost function Before(k: Setup, s: State): (m: Memory)
    requires Proper(k) && Addressed(s.ops, k.start.table.NPages() * k.pageSize)
    ensures Sound(m, k.pageSize) && m.table.NPages() == k.start.table.NPages()
  {
    Run(k.start, k.policy, s.ops, k.pageSize)
  }

  ghost predicate InHandler(s: State) {
    !s.manager.Pausing?
  }

  /** Semaphore value, undelivered signal and running handler: together one token, and only
      while the client is between kill and the end of sem_wait. */
  ghost predicate OneToken(s: State) {
    s.sema + (if s.pending then 1 else 0) + (if InHandler(s) then 1 else 0) == if s.client.Waiting? then 1 else 0
  }

  ghost function PageFor(k: Setup, op: Op): int
    requires k.pageSize >= 1
  {
    PageOf(op.addr, k.pageSize)
  }

  /** The memory in the middle of the fault for `page` that started from m. */
  ghost predicate MidFault(k: Setup, m: Memory, page: int, s: State)
    requires Sound(m, k.pageSize) && 0 <= page < m.table.NPages() && !m.table.Present(page)
  {
    ChooseSound(m.table, k.policy);
    var c := Choose(m.table, k.policy);
    var chosen := m.(table := c.table);
    var stored := WriteBack(chosen, c.frame);
    var victim := Replaced(stored, c.frame);
    match s.manager
    case Pausing => s.mem == if s.pending then m else PageFault(m, k.policy, page)
    case Finding => s.mem == m
    case Storing(f) => f == c.frame && s.mem == chosen
    case Unloading(f) => f == c.frame && s.mem == stored
    case Loading(f) => f == c.frame && s.mem == stored.(table := Unload(stored.table, victim))
    case Fetching => s.mem == stored.(table := Rewire(stored.table, c.frame, page))
    case Posting => s.mem == PageFault(m, k.policy, page)
  }

  /** The memory as the client program sees it at each of its own steps. */
  ghost predicate ClientView(k: Setup, m: Memory, s: State)
    requires Sound(m, k.pageSize)
    requires !s.client.Idle? ==> 0 <= PageFor(k, s.client.op) < m.table.NPages()
    requires !s.client.Idle? ==> s.client.op.addr < m.table.NPages() * k.pageSize
  {
    match s.client
    case Idle => s.mem == m
    case Testing(op) => s.mem == m && s.reqPageno == PageFor(k, op)
    case Killing(op) => s.mem == m && s.reqPageno == PageFor(k, op) && !m.table.Present(PageFor(k, op))
    case Waiting(op) =>
      s.reqPageno == PageFor(k, op) && !m.table.Present(PageFor(k, op)) && MidFault(k, m, PageFor(k, op), s)
    case Counting(op) => s.mem == MakeResident(m, k.policy, PageFor(k, op), k.pageSize)
    case Moving(op) =>
      var r := MakeResident(m, k.policy, PageFor(k, op), k.pageSize);
      s.mem == r.(table := Touch(r.table, PageFor(k, op), op.Write?))
  }

  ghost predicate Inv(k: Setup, s: State) {
    && Proper(k)
    && Addressed(s.ops, k.start.table.NPages() * k.pageSize)
    && OneToken(s)
    && (!s.client.Idle? ==> s.client.op.addr < k.start.table.NPages() * k.pageSize)
    && (!s.client.Idle? ==> 0 <= PageFor(k, s.client.op) < k.start.table.NPages())
    && ClientView(k, Before(k, s), s)
    && s.outputs == Outputs(k.start, k.policy, s.ops, k.pageSize)
  }

  // ----- the client -----

  ghost predicate ClientEnabled(s: State) {
    s.client.Waiting? ==> s.sema > 0
  }

  /** The next step of the client; `next` is the access it wants when it is idle. */
  ghost function ClientNext(k: Setup, s: State, next: Op): State
    requires Inv(k, s) && ClientEnabled(s) && next.addr < k.start.table.NPages() * k.pageSize
  {
    match s.client
    case Idle => s.(client := Testing(next), reqPageno := PageFor(k, next))
    case Testing(op) =>
      s.(client := if s.mem.table.Present(PageFor(k, op)) then Counting(op) else Killing(op))
    case Killing(op) => s.(client := Waiting(op), pending := true)
    case Waiting(op) => s.(client := Counting(op), sema := s.sema - 1)
    case Counting(op) =>
      s.(client := Moving(op), mem := s.mem.(table := Touch(s.mem.table, PageFor(k, op), op.Write?)))
    case Moving(op) =>
      TouchedIsSound(k, s, op);
      var f := s.mem.table.Entry(PageFor(k, op)).frame;
      var i := op.addr % k.pageSize;
      if op.Read? then s.(client := Idle, ops := s.ops + [op], outputs := s.outputs + [s.mem.frames[f][i]])
      else
        var frames := s.mem.frames[f := s.mem.frames[f][i := op.value]];
        s.(client := Idle, ops := s.ops + [op], mem := s.mem.(frames := frames))
  }

  /** The client is about to transfer a cell: its page is present and sits in a frame. */
  lemma TouchedIsSound(k: Setup, s: State, op: Op)
    requires Inv(k, s) && s.client == Moving(op)
    ensures s.mem.table.NPages() == k.start.table.NPages()
    ensures s.mem.table.Present(PageFor(k, op))
    ensures 0 <= s.mem.table.Entry(PageFor(k, op)).frame < |s.mem.frames|
    ensures |s.mem.frames[s.mem.table.Entry(PageFor(k, op)).frame]| == k.pageSize
  {
    var r := MakeResident(Before(k, s), k.policy, PageFor(k, op), k.pageSize);
    assert r.table.PageSound(PageFor(k, op));
  }

  // ----- the manager -----

  ghost predicate ManagerEnabled(s: State) {
    InHandler(s) || s.pending
  }

  /** What the manager's steps need of the shared structure holds whenever it can move. */
  lemma ManagerReady(k: Setup, s: State)
    requires Inv(k, s) && ManagerEnabled(s)
    ensures s.client.Waiting? && 0 <= s.reqPageno < s.mem.table.NPages()
    ensures |s.mem.frames| == s.mem.table.NFrames() && |s.mem.pagefile| == s.mem.table.NPages()
    ensures s.manager.Finding? ==> s.mem.table.Consistent()
    ensures s.manager.Storing? || s.manager.Unloading? ==> Chosen(s.mem.table, s.manager.frame)
    ensures s.manager.Loading? ==> s.manager.frame < s.mem.table.NFrames()
    ensures s.manager.Fetching? ==> s.mem.table.Shaped() && 0 <= s.mem.table.Entry(s.reqPageno).frame < |s.mem.frames|
  {
    hide Run, Outputs, Addressed;
    var m := Before(k, s);
    var page := PageFor(k, s.client.op);
    ChooseSound(m.table, k.policy);
    var c := Choose(m.table, k.policy);
    FaultSound(m.table, k.policy, page);
    if s.manager.Fetching? {
      assert s.mem.table == Fault(m.table, k.policy, page);
      assert s.mem.table.PageSound(page);
    }
    if s.manager.Pausing? {
      FaultTransparent(m, k.policy, page, k.pageSize);
    }
  }

  ghost function ManagerNext(k: Setup, s: State): State
    requires Inv(k, s) && ManagerEnabled(s)
  {
    ManagerReady(k, s);
    var t := s.mem.table;
    match s.manager
    case Pausing => s.(manager := Finding, pending := false)
    case Finding =>
      var c := Choose(t, k.policy);
      s.(manager := Storing(c.frame), mem := s.mem.(table := c.table))
    case Storing(f) => s.(manager := Unloading(f), mem := WriteBack(s.mem, f))
    case Unloading(f) => s.(manager := Loading(f), mem := s.mem.(table := Unload(t, Replaced(s.mem, f))))
    case Loading(f) => s.(manager := Fetching, mem := s.mem.(table := Load(t, f, s.reqPageno)))
    case Fetching => s.(manager := Posting, mem := FetchPage(s.mem, s.reqPageno))
    case Posting => s.(manager := Pausing, sema := s.sema + 1)
  }

  // ----- every step keeps the invariant -----

  lemma {:induction false} RunSnoc(m: Memory, policy: Policy, ops: seq<Op>, op: Op, pageSize: nat)
    requires Sound(m, pageSize) && Addressed(ops, m.table.NPages() * pageSize) && op.addr < m.table.NPages() * pageSize
    ensures Addressed(ops + [op], m.table.NPages() * pageSize)
    ensures var r := Run(m, policy, ops, pageSize);
            && Run(m, policy, ops + [op], pageSize) == Access(r, policy, op, pageSize)
            && Outputs(m, policy, ops + [op], pageSize) ==
               Outputs(m, policy, ops, pageSize) + (if op.Read? then [ReadValue(r, policy, op.addr, pageSize)] else [])
    decreases |ops|
  {
    hide *;
    if ops == [] {
      OneOp(m, policy, op, pageSize);
    } else {
      ConsOp(m, policy, ops, op, pageSize);
      RunSnoc(Access(m, policy, ops[0], pageSize), policy, ops[1..], op, pageSize);
    }
  }

  lemma OneOp(m: Memory, policy: Policy, op: Op, pageSize: nat)
    requires Sound(m, pageSize) && op.addr < m.table.NPages() * pageSize
    ensures Addressed([] + [op], m.table.NPages() * pageSize) && Addressed([], m.table.NPages() * pageSize)
    ensures Run(m, policy, [] + [op], pageSize) == Access(Run(m, policy, [], pageSize), policy, op, pageSize)
    ensures Run(m, policy, [], pageSize) == m
    ensures Outputs(m, policy, [] + [op], pageSize) ==
            Outputs(m, policy, [], pageSize) + (if op.Read? then [ReadValue(m, policy, op.addr, pageSize)] else [])
  {
    AccessRefines(m, policy, op, pageSize);
    assert [] + [op] == [op] && [op][1..] == [];
  }

  lemma ConsOp(m: Memory, policy: Policy, ops: seq<Op>, op: Op, pageSize: nat)
    requires Sound(m, pageSize) && Addressed(ops, m.table.NPages() * pageSize) && op.addr < m.table.NPages() * pageSize
    requires ops != []
    ensures ops[0].addr < m.table.NPages() * pageSize && Addressed(ops + [op], m.table.NPages() * pageSize)
    ensures var r := Access(m, policy, ops[0], pageSize);
            && Sound(r, pageSize) && r.table.NPages() == m.table.NPages()
            && Addressed(ops[1..], r.table.NPages() * pageSize)
            && Addressed(ops[1..] + [op], r.table.NPages() * pageSize)
            && Run(m, policy, ops, pageSize) == Run(r, policy, ops[1..], pageSize)
            && Run(m, policy, ops + [op], pageSize) == Run(r, policy, ops[1..] + [op], pageSize)
            && var first := if ops[0].Read? then [ReadValue(m, policy, ops[0].addr, pageSize)] else [];
            && Outputs(m, policy, ops, pageSize) == first + Outputs(r, policy, ops[1..], pageSize)
            && Outputs(m, policy, ops + [op], pageSize) == first + Outputs(r, policy, ops[1..] + [op], pageSize)
  {
    hide *;
    OpsAppend(ops, op, m.table.NPages() * pageSize);
    OpsUnfold(m, policy, ops, pageSize);
    OpsUnfold(m, policy, ops + [op], pageSize);
    assert (ops + [op])[0] == ops[0] && (ops + [op])[1..] == ops[1..] + [op];
  }

  lemma OpsAppend(ops: seq<Op>, op: Op, size: int)
    requires Addressed(ops, size) && op.addr < size
    ensures Addressed(ops + [op], size)
  {
  }

  lemma ClientKeeps(k: Setup, s: State, next: Op)
    requires Inv(k, s) && ClientEnabled(s) && next.addr < k.start.table.NPages() * k.pageSize
    ensures Inv(k, ClientNext(k, s, next))
  {
    hide *;
    match s.client
    case Idle => NextBegins(k, s, next);
    case Testing(_) => FaultBegins(k, s, next);
    case Killing(_) => FaultBegins(k, s, next);
    case Waiting(_) => WokenKeeps(k, s, next);
    case Counting(_) => CountingKeeps(k, s, next);
    case Moving(_) => MovingKeeps(k, s, next);
  }

  lemma NextBegins(k: Setup, s: State, next: Op)
    requires Inv(k, s) && s.client.Idle? && next.addr < k.start.table.NPages() * k.pageSize
    ensures Inv(k, ClientNext(k, s, next))
  {
    hide Run, Outputs, Addressed, MidFault, MakeResident;
    AddressSplit(next.addr, k.start.table.NPages(), k.pageSize);
  }

  lemma CountingKeeps(k: Setup, s: State, next: Op)
    requires Inv(k, s) && s.client.Counting? && next.addr < k.start.table.NPages() * k.pageSize
    ensures Inv(k, ClientNext(k, s, next))
  {
    hide Run, Outputs, Sound, Addressed, MidFault, MakeResident, Touch, Resident;
  }

  lemma FaultBegins(k: Setup, s: State, next: Op)
    requires Inv(k, s) && (s.client.Testing? || s.client.Killing?)
    requires next.addr < k.start.table.NPages() * k.pageSize
    ensures Inv(k, ClientNext(k, s, next))
  {
    hide Run, Outputs, Sound, Addressed, Choose, WriteBack, Rewire, Unload, PageFault;
  }

  /** The semaphore lets the client go on only when the fault is complete. */
  lemma WokenKeeps(k: Setup, s: State, next: Op)
    requires Inv(k, s) && s.client.Waiting? && ClientEnabled(s)
    requires next.addr < k.start.table.NPages() * k.pageSize
    ensures Inv(k, ClientNext(k, s, next))
  {
    hide Run, Outputs, Sound, Addressed, Choose, WriteBack, Rewire, Unload, PageFault;
  }

  /** The last client step completes exactly the atomic access. */
  lemma MovingKeeps(k: Setup, s: State, next: Op)
    requires Inv(k, s) && s.client.Moving? && next.addr < k.start.table.NPages() * k.pageSize
    ensures Inv(k, ClientNext(k, s, next))
  {
    var op := s.client.op;
    var s' := ClientNext(k, s, next);
    RunSnoc(k.start, k.policy, s.ops, op, k.pageSize);
    MovingCompletes(k, s, next);
    hide Run, Outputs, Sound, Access, ReadValue, ClientNext, Addressed;
    assert Before(k, s') == Access(Before(k, s), k.policy, op, k.pageSize);
  }

  lemma MovingCompletes(k: Setup, s: State, next: Op)
    requires Inv(k, s) && s.client.Moving? && next.addr < k.start.table.NPages() * k.pageSize
    ensures var op := s.client.op;
            var s' := ClientNext(k, s, next);
            && s'.client == Idle && s'.ops == s.ops + [op] && OneToken(s')
            && s'.mem == Access(Before(k, s), k.policy, op, k.pageSize)
            && s'.outputs ==
               s.outputs + (if op.Read? then [ReadValue(Before(k, s), k.policy, op.addr, k.pageSize)] else [])
  {
    hide Run, Outputs, Addressed, PageFault, Resident;
    var op := s.client.op;
    var r := MakeResident(Before(k, s), k.policy, PageFor(k, op), k.pageSize);
    assert r.table.PageSound(PageFor(k, op));
    hide MakeResident;
    assert ClientNext(k, s, next).mem == TouchCell(r, op, k.pageSize);
  }

  lemma ManagerKeeps(k: Setup, s: State)
    requires Inv(k, s) && ManagerEnabled(s)
    ensures Inv(k, ManagerNext(k, s))
  {
    ManagerReady(k, s);
    ManagerAdvances(k, s);
    hide ManagerNext, MidFault, Sound, Run, Outputs, Addressed, MakeResident, Touch;
    var s' := ManagerNext(k, s);
    assert Before(k, s') == Before(k, s);
  }

  /** The handler goes on in the middle of the same fault; nothing of the client moves. */
  lemma ManagerAdvances(k: Setup, s: State)
    requires Inv(k, s) && ManagerEnabled(s) && s.client.Waiting?
    ensures var s' := ManagerNext(k, s);
            && s'.client == s.client && s'.ops == s.ops && s'.outputs == s.outputs && s'.reqPageno == s.reqPageno
            && OneToken(s') && MidFault(k, Before(k, s), PageFor(k, s.client.op), s')
  {
    hide Run, Outputs, Addressed, MakeResident, Touch, Sweep;
    ManagerReady(k, s);
    ChooseSound(Before(k, s).table, k.policy);
    hide Sound;
  }

  // ----- whole behaviours -----

  /** One step of an interleaving: the client moves (with the access it chooses), or the manager. */
  datatype Step = ClientMoves(next: Op) | ManagerMoves

  ghost predicate Allowed(k: Setup, s: State, step: Step)
    requires Proper(k)
  {
    match step
    case ClientMoves(next) => ClientEnabled(s) && next.addr < k.start.table.NPages() * k.pageSize
    case ManagerMoves => ManagerEnabled(s)
  }

  ghost function Apply(k: Setup, s: State, step: Step): (r: State)
    requires Inv(k, s) && Allowed(k, s, step)
    ensures Inv(k, r)
  {
    match step
    case ClientMoves(next) => ClientKeeps(k, s, next); ClientNext(k, s, next)
    case ManagerMoves => ManagerKeeps(k, s); ManagerNext(k, s)
  }

  /** The states an interleaving goes through. */
  ghost predicate Behaviour(k: Setup, states: seq<State>, steps: seq<Step>) {
    && Proper(k)
    && |states| == |steps| + 1 && states[0] == Init(k)
    && forall i :: 0 <= i < |steps| ==>
         Inv(k, states[i]) ==> Allowed(k, states[i], steps[i]) && states[i + 1] == Apply(k, states[i], steps[i])
  }

  lemma InitInv(k: Setup)
    requires Proper(k)
    ensures Inv(k, Init(k))
  {
  }

  lemma {:induction false} BehaviourSafe(k: Setup, states: seq<State>, steps: seq<Step>, i: nat)
    requires Behaviour(k, states, steps) && i < |states|
    ensures Inv(k, states[i])
    decreases i
  {
    hide ClientView, Run, Outputs, Sound;
    if i == 0 {
      InitInv(k);
    } else {
      BehaviourSafe(k, states, steps, i - 1);
    }
  }

  /** Main theorem: in every interleaving, whenever the client is between two accesses, the
      shared memory and everything it has read are those of the atomic model. */
  lemma HandshakeIsAtomic(k: Setup, states: seq<State>, steps: seq<Step>, i: nat)
    requires Behaviour(k, states, steps) && i < |states|
    ensures Addressed(states[i].ops, k.start.table.NPages() * k.pageSize)
    ensures states[i].outputs == Outputs(k.start, k.policy, states[i].ops, k.pageSize)
    ensures states[i].client.Idle? ==> states[i].mem == Run(k.start, k.policy, states[i].ops, k.pageSize)
    ensures OneToken(states[i])
  {
    BehaviourSafe(k, states, steps, i);
  }

  /** PRESENT is set before the page is fetched, but a client that gets to touch a frame
      finds its page present, and the frame holds the content of that page. */
  lemma ClientTouchesFetchedPages(k: Setup, states: seq<State>, steps: seq<Step>, i: nat)
    requires Behaviour(k, states, steps) && i < |states|
    requires states[i].client.Counting? || states[i].client.Moving?
    ensures var s := states[i];
            var page := PageFor(k, s.client.op);
            && Inv(k, s) && s.manager.Pausing? && 0 <= page < s.mem.table.NPages() && s.mem.table.Present(page)
            && 0 <= s.mem.table.Entry(page).frame < |s.mem.frames|
            && s.mem.frames[s.mem.table.Entry(page).frame] == Contents(Before(k, s), k.pageSize)[page]
  {
    BehaviourSafe(k, states, steps, i);
    var s := states[i];
    var page := PageFor(k, s.client.op);
    var m := Before(k, s);
    var r := MakeResident(m, k.policy, page, k.pageSize);
    assert r.table.PageSound(page) && m.table.PageSound(page);
    assert Contents(r, k.pageSize)[page] == Content(r, page);
  }

  /** How many steps the manager still needs until the client can go on. */
  ghost function Rank(s: State): nat {
    if s.pending then 8
    else match s.manager
      case Pausing => 0
      case Finding => 7
      case Storing(_) => 6
      case Unloading(_) => 5
      case Loading(_) => 4
      case Fetching => 3
      case Posting => 2
  }

  /** A waiting client always gets on: it can move, or only the manager can and every move
      of the manager brings it closer. */
  lemma WaitingClientResumes(k: Setup, s: State)
    requires Inv(k, s) && s.client.Waiting?
    ensures ClientEnabled(s) <==> !ManagerEnabled(s)
    ensures ManagerEnabled(s) ==>
              var r := ManagerNext(k, s);
              r.client == s.client && Rank(r) < Rank(s) && (ClientEnabled(r) <==> Rank(r) == 0)
  {
    hide Sound, Run, Outputs, ClientView, Addressed, Choose, WriteBack, Unload, Load, FetchPage, Replaced;
    if ManagerEnabled(s) {
      ManagerKeeps(k, s);
      assert OneToken(ManagerNext(k, s));
    }
  }
}
