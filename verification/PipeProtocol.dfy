/** The scull pipe under concurrency: any number of readers and writers, every
    interleaving of the steps of scull_p_read, scull_p_write and
    scull_getwritespace, with the semaphore, the two wait queues and the ring. */
module PipeProtocol {
  import opened Bytes
  import opened PipeRing

  datatype Role = Reader | Writer

  /** Where a process is.  Readers and writers go through the same steps. */
  datatype Pc =
    | Idle       // outside the driver
    | Down       // acquiring the semaphore
    | Check      // holding it, testing for data or space
    | Up         // holding it, nothing to do, about to release it
    | Prepare    // about to join the wait queue
    | Recheck    // queued, testing again, without the semaphore: about to compare the pointers
    | RecheckR   // one of the two pointers is loaded, the read pointer
    | RecheckW   // or the write pointer
    | Space      // a writer that found them different, about to compute the free space
    | SpaceR     // one of the two pointers is loaded for that, the read pointer
    | SpaceW     // or the write pointer
    | Schedule   // queued, in schedule(): asleep until woken
    | Finish     // about to leave the wait queue
    | Copy       // holding the semaphore, transferring bytes
    | Advance    // holding it, about to advance its pointer
    | Wrap       // holding it, about to wrap its pointer
    | Release    // holding it, about to release it
    | Wake       // about to wake the other side

  /** One process.  A writer moves data[..n]; a reader collects n of count bytes in data; seen is
      the pointer it loaded while testing without the semaphore. */
  datatype Thread = Thread(role: Role, pc: Pc, woken: bool, count: nat, n: nat, data: seq<byte>, seen: nat)

  datatype Holder = Nobody | Held(owner: nat)

  /** accepted and delivered record every byte that the pipe took in and gave out. */
  datatype State = State(
    buffer: seq<byte>, rp: nat, wp: nat, sem: Holder, threads: seq<Thread>,
    accepted: seq<byte>, delivered: seq<byte>)

  ghost predicate Init(s: State) {
    && |s.buffer| >= 1 && s.rp == 0 && s.wp == 0 && s.sem == Nobody
    && s.accepted == [] && s.delivered == []
    && forall i :: 0 <= i < |s.threads| ==> s.threads[i].pc == Idle
  }

  /** Nothing to read, or no space to write: the conditions both sides sleep on. */
  ghost predicate Blocked(s: State, role: Role)
    requires |s.buffer| >= 1
  {
    match role
    case Reader => s.rp == s.wp
    case Writer => SpaceFree(|s.buffer|, s.rp, s.wp) == 0
  }

  ghost predicate Holds(pc: Pc) {
    pc == Check || pc == Up || pc == Copy || pc == Advance || pc == Wrap || pc == Release
  }

  ghost predicate Queued(pc: Pc) {
    Rechecks(pc) || pc == Schedule || pc == Finish
  }

  ghost predicate Rechecks(pc: Pc) {
    pc == Recheck || pc == RecheckR || pc == RecheckW || pc == Space || pc == SpaceR || pc == SpaceW
  }

  /** Process t has moved its pointer and still has to wake the other side. */
  ghost predicate WakePending(t: Thread) {
    t.pc == Wrap || t.pc == Release || t.pc == Wake
  }

  /** Asleep: nothing but a wake_up will get it on. */
  ghost predicate Asleep(t: Thread) {
    t.pc == Schedule && !t.woken
  }

  // ----- steps -----

  ghost function Set(s: State, i: nat, t: Thread): State
    requires i < |s.threads|
  {
    s.(threads := s.threads[i := t])
  }

  /** wake_up: every process of the given role that is on its queue becomes runnable. */
  ghost function WakeAll(threads: seq<Thread>, role: Role): (r: seq<Thread>)
    ensures |r| == |threads|
    ensures forall i :: 0 <= i < |r| ==>
              r[i] ==
                if threads[i].role == role && Queued(threads[i].pc) then threads[i].(woken := true) else threads[i]
  {
    seq(|threads|, i requires 0 <= i < |threads| =>
      if threads[i].role == role && Queued(threads[i].pc) then threads[i].(woken := true) else threads[i])
  }

  ghost function Chunk(s: State, t: Thread): nat
    requires s.rp < |s.buffer| && s.wp < |s.buffer|
  {
    WriteChunkFits(|s.buffer|, s.rp, s.wp, t.count);
    match t.role
    case Reader => ReadChunk(|s.buffer|, s.rp, s.wp, t.count)
    case Writer => WriteChunk(|s.buffer|, s.rp, s.wp, t.count)
  }

  /** One load of a test without the semaphore, in which the two pointers are loaded one after the
      other, in either order, while others move them. */
  ghost predicate Load(s: State, t: Thread, t': Thread)
    requires |s.buffer| >= 1
  {
    match t.pc
    case Recheck => t' == t.(pc := RecheckR, seen := s.rp) || t' == t.(pc := RecheckW, seen := s.wp)
    case RecheckR => Compared(|s.buffer|, t, t.seen, s.wp, t')
    case RecheckW => Compared(|s.buffer|, t, s.rp, t.seen, t')
    case Space => t' == t.(pc := SpaceR, seen := s.rp) || t' == t.(pc := SpaceW, seen := s.wp)
    case SpaceR => t' == t.(pc := if Gap(|s.buffer|, t.seen, s.wp) == 0 then Schedule else Finish)
    case SpaceW => t' == t.(pc := if Gap(|s.buffer|, s.rp, t.seen) == 0 then Schedule else Finish)
    case _ => false
  }

  /** The pointers have been compared as rp and wp.  A reader is done with that, and so is a
      writer that found them equal; otherwise it goes on with the same two values, with one of
      them, or with none. */
  ghost predicate Compared(size: nat, t: Thread, rp: nat, wp: nat, t': Thread)
    requires size >= 1
  {
    if t.role == Reader then t' == t.(pc := if rp == wp then Schedule else Finish)
    else
      || t' == t.(pc := if SpaceFree(size, rp, wp) == 0 then Schedule else Finish)
      || (rp != wp && t' == t.(pc := Space))
      || (rp != wp && t' == t.(pc := SpaceR, seen := rp))
      || (rp != wp && t' == t.(pc := SpaceW, seen := wp))
  }

  /** A step that changes nothing but the process itself, with every choice it has: what it is
      called with, a signal that interrupts it. */
  ghost predicate Local(s: State, t: Thread, t': Thread)
    requires |s.buffer| >= 1
  {
    match t.pc
    case Idle => t'.role == t.role && t'.pc == Down && (t.role == Writer ==> t'.count == |t'.data|)
    case Down => t' == t.(pc := Idle)
    case Check =>
      && s.rp < |s.buffer| && s.wp < |s.buffer|
      && t' == if Blocked(s, t.role) then t.(pc := Up) else t.(pc := Copy, n := Chunk(s, t))
    case Prepare =>
      || t' == t.(pc := Recheck, woken := false)
         // a reader tests once before that; nothing depends on what it finds
      || (t.role == Reader && t' == t.(pc := Down))
    case Recheck | RecheckR | RecheckW | Space | SpaceR | SpaceW => Load(s, t, t')
    case Schedule =>
      || t' == t.(pc := Finish, woken := true)
         // a signal makes it runnable as well
      || (t.woken && t' == t.(pc := if t.role == Writer then Finish else Prepare))
    case Finish => t' == t.(pc := Down) || t' == t.(pc := Idle)
    case _ => false
  }

  /** Taking and releasing the semaphore; with O_NONBLOCK a process that releases it goes away. */
  ghost predicate Lock(s: State, i: nat, t: Thread, t': Thread, sem: Holder) {
    match t.pc
    case Down => s.sem == Nobody && sem == Held(i) && t' == t.(pc := Check)
    case Up => sem == Nobody && (t' == t.(pc := Idle) || t' == t.(pc := Prepare))
    case Release => sem == Nobody && t' == t.(pc := Wake)
    case _ => false
  }

  /** The steps of a transfer. */
  ghost predicate Move(s: State, s': State, i: nat)
    requires i < |s.threads|
  {
    var t := s.threads[i];
    match t.pc
    case Copy =>
      (match t.role
       case Reader =>
         && s.rp + t.n <= |s.buffer|
         && s' == Set(s, i, t.(pc := Advance, data := s.buffer[s.rp..s.rp + t.n]))
       case Writer =>
         && s.wp + t.n <= |s.buffer| && t.n <= |t.data|
         && s' == Set(s, i, t.(pc := Advance)).(buffer := s.buffer[..s.wp] + t.data[..t.n] + s.buffer[s.wp + t.n..]))
    case Advance =>
      (match t.role
       case Reader => s' == Set(s, i, t.(pc := Wrap)).(rp := s.rp + t.n, delivered := s.delivered + t.data)
       case Writer =>
         && t.n <= |t.data|
         && s' == Set(s, i, t.(pc := Wrap)).(wp := s.wp + t.n, accepted := s.accepted + t.data[..t.n]))
    case Wrap =>
      (match t.role
       case Reader => s' == Set(s, i, t.(pc := Release)).(rp := Wrapped(s.rp, |s.buffer|))
       case Writer => s' == Set(s, i, t.(pc := Release)).(wp := Wrapped(s.wp, |s.buffer|)))
    case _ => false
  }

  /** Waking the other side. */
  ghost predicate WakeUp(s: State, s': State, i: nat)
    requires i < |s.threads|
  {
    var t := s.threads[i];
    && t.pc == Wake
    && s' == s.(threads := WakeAll(Set(s, i, t.(pc := Idle)).threads, Other(t.role)))
  }

  /** One step of process i. */
  ghost predicate Step(s: State, s': State, i: nat) {
    && i < |s.threads| == |s'.threads| && |s.buffer| >= 1
    && var t, t' := s.threads[i], s'.threads[i];
       || (Local(s, t, t') && s' == Set(s, i, t'))
       || (Lock(s, i, t, t', s'.sem) && s' == Set(s, i, t').(sem := s'.sem))
       || Move(s, s', i)
       || WakeUp(s, s', i)
  }

  ghost function Other(role: Role): Role {
    if role == Reader then Writer else Reader
  }

  // ----- the invariant -----

  ghost predicate Mutex(s: State) {
    && (forall i :: 0 <= i < |s.threads| && Holds(s.threads[i].pc) ==> s.sem == Held(i))
    && (s.sem.Held? ==> s.sem.owner < |s.threads| && Holds(s.threads[s.sem.owner].pc))
  }

  /** Only a process about to wrap may leave its pointer at the end of the buffer. */
  ghost predicate Pointers(s: State) {
    && RingOk(s.buffer, s.rp, s.wp)
    && (s.rp == |s.buffer| ==> s.sem.Held? && s.sem.owner < |s.threads| &&
                               s.threads[s.sem.owner].pc == Wrap && s.threads[s.sem.owner].role == Reader)
    && (s.wp == |s.buffer| ==> s.sem.Held? && s.sem.owner < |s.threads| &&
                               s.threads[s.sem.owner].pc == Wrap && s.threads[s.sem.owner].role == Writer)
  }

  /** The transfer in progress, if any, fits into the ring. */
  ghost predicate Transfer(s: State, t: Thread)
    requires RingOk(s.buffer, s.rp, s.wp)
  {
    && (t.role == Writer ==> t.pc != Idle ==> t.count == |t.data|)
    && (t.pc == Space || t.pc == SpaceR || t.pc == SpaceW ==> t.role == Writer)
    && (t.pc == Copy || t.pc == Advance ==>
          && s.rp < |s.buffer| && s.wp < |s.buffer|
          && !Blocked(s, t.role) && t.n == Chunk(s, t))
    && (t.pc == Advance ==>
          (match t.role
           case Reader => s.rp + t.n <= |s.buffer| && t.data == s.buffer[s.rp..s.rp + t.n]
           case Writer => t.n <= |t.data| && s.wp + t.n <= |s.buffer| && s.buffer[s.wp..s.wp + t.n] == t.data[..t.n]))
  }

  /** A sleeper has nothing to do, and what a process about to sleep has loaded will only send it
      to sleep if it has nothing to do: its own side's pointer may have moved on since, the other
      side's has not. */
  ghost predicate Calm(s: State, t: Thread)
    requires |s.buffer| >= 1
  {
    match t.pc
    case Schedule => Blocked(s, t.role)
    case RecheckR | SpaceR =>
      if t.role == Writer then s.rp == t.seen else s.wp == t.seen ==> Blocked(s, Reader)
    case RecheckW | SpaceW =>
      if t.role == Reader then s.wp == t.seen else SpaceFree(|s.buffer|, s.rp, t.seen) == 0 ==> Blocked(s, Writer)
    case _ => true
  }

  /** All is calm, or a process of the other side will still wake this one. */
  ghost predicate WaitOk(s: State, t: Thread)
    requires |s.buffer| >= 1
  {
    !t.woken ==>
      Calm(s, t) ||
      exists j :: 0 <= j < |s.threads| && s.threads[j].role == Other(t.role) && WakePending(s.threads[j])
  }

  ghost predicate Inv(s: State) {
    && Mutex(s) && Pointers(s)
    && (forall i :: 0 <= i < |s.threads| ==> Transfer(s, s.threads[i]))
    && (forall i :: 0 <= i < |s.threads| ==> WaitOk(s, s.threads[i]))
    && s.accepted == s.delivered + Queue(s.buffer, s.rp, s.wp)
  }

  // ----- every step keeps the invariant -----

  /** What a step does to the other processes: nothing, except that Wake may mark them woken. */
  ghost predicate OthersSame(s: State, s': State, i: nat) {
    && i < |s.threads| && |s'.threads| == |s.threads|
    && forall j :: 0 <= j < |s.threads| && j != i ==>
         s'.threads[j] == s.threads[j] || s'.threads[j] == s.threads[j].(woken := true)
  }

  lemma LocalThread(s: State, t: Thread, t': Thread)
    requires |s.buffer| >= 1 && Local(s, t, t')
    ensures t'.role == t.role && !WakePending(t) && !WakePending(t')
    ensures Holds(t.pc) <==> Holds(t'.pc)
    ensures t.pc != Copy && t.pc != Advance && t.pc != Wrap && t.pc != Wake
  {
    hide Load, Blocked, Chunk;
    if Rechecks(t.pc) {
      LoadThread(s, t, t');
    }
  }

  lemma LockThread(s: State, i: nat, t: Thread, t': Thread, sem: Holder)
    requires Lock(s, i, t, t', sem)
    ensures t' == t.(pc := t'.pc) && (WakePending(t) <==> WakePending(t'))
    ensures if Holds(t.pc) then !Holds(t'.pc) && sem == Nobody else Holds(t'.pc) && s.sem == Nobody && sem == Held(i)
    ensures t.pc == Down || t.pc == Up || t.pc == Release
    ensures t'.pc == Check || t'.pc == Idle || t'.pc == Prepare || t'.pc == Wake
  {
  }

  lemma MoveFrame(s: State, s': State, i: nat)
    requires i < |s.threads| && Move(s, s', i)
    ensures |s'.threads| == |s.threads| && s'.threads == s.threads[i := s'.threads[i]]
    ensures s'.sem == s.sem && |s'.buffer| == |s.buffer|
    ensures s'.threads[i].role == s.threads[i].role && s'.threads[i].woken == s.threads[i].woken
    ensures match s.threads[i].pc
            case Copy => s'.threads[i].pc == Advance
            case Advance => s'.threads[i].pc == Wrap
            case Wrap => s'.threads[i].pc == Release
            case _ => false
  {
  }

  lemma WakeFrame(s: State, s': State, i: nat)
    requires i < |s.threads| && WakeUp(s, s', i)
    ensures OthersSame(s, s', i) && RingSame(s, s') && s'.sem == s.sem
    ensures s'.threads[i] == s.threads[i].(pc := Idle) && s.threads[i].pc == Wake
    ensures forall j :: 0 <= j < |s.threads| && j != i ==>
              s'.threads[j] ==
                if s.threads[j].role != s.threads[i].role && Queued(s.threads[j].pc) then s.threads[j].(woken := true)
                else s.threads[j]
  {
  }

  /** Whatever the step, the other processes stay as they are, except that Wake marks them woken;
      only Down takes the semaphore, and only when it is free; only its holder gives it back. */
  lemma StepFrame(s: State, s': State, i: nat)
    requires Step(s, s', i)
    ensures OthersSame(s, s', i) && s'.threads[i].role == s.threads[i].role
    ensures var t, t' := s.threads[i], s'.threads[i];
            if Holds(t'.pc) then if Holds(t.pc) then s'.sem == s.sem else s'.sem == Held(i) && s.sem == Nobody
            else s'.sem == if Holds(t.pc) then Nobody else s.sem
  {
    hide Local, Lock, Move, WakeUp, Load;
    var t, t' := s.threads[i], s'.threads[i];
    if Local(s, t, t') && s' == Set(s, i, t') {
      LocalThread(s, t, t');
    } else if Lock(s, i, t, t', s'.sem) && s' == Set(s, i, t').(sem := s'.sem) {
      LockThread(s, i, t, t', s'.sem);
    } else if Move(s, s', i) {
      MoveFrame(s, s', i);
    } else {
      WakeFrame(s, s', i);
    }
  }

  lemma MutexKeeps(s: State, s': State, i: nat)
    requires Mutex(s) && Step(s, s', i)
    ensures Mutex(s')
  {
    hide Step;
    StepFrame(s, s', i);
    assert Mutex(s');
  }

  /** Steps that leave the ring and the logs alone. */
  ghost predicate RingSame(s: State, s': State) {
    && s'.buffer == s.buffer && s'.rp == s.rp && s'.wp == s.wp
    && s'.accepted == s.accepted && s'.delivered == s.delivered
  }

  /** Nobody but the holder of the semaphore is transferring bytes. */
  lemma OnlyHolderTransfers(s: State, i: nat, j: nat)
    requires Mutex(s) && i < |s.threads| && j < |s.threads| && j != i && Holds(s.threads[i].pc)
    ensures !Holds(s.threads[j].pc)
  {
  }

  /** A witness that a waiting process relied on is still there, unless it just woke everybody. */
  lemma SleepersKeep(s: State, s': State, i: nat, j: nat)
    requires |s.buffer| >= 1 && |s'.buffer| == |s.buffer|
    requires OthersSame(s, s', i) && s'.threads[i].role == s.threads[i].role
    requires j < |s.threads| && j != i && WaitOk(s, s.threads[j])
    requires WakePending(s.threads[i]) ==>
               WakePending(s'.threads[i]) || s'.threads[j].woken || Calm(s', s'.threads[j]) ||
               s.threads[i].role == s.threads[j].role
    requires Calm(s, s.threads[j]) ==>
               Calm(s', s'.threads[j]) || s'.threads[j].woken ||
               (WakePending(s'.threads[i]) && s'.threads[i].role == Other(s.threads[j].role))
    ensures WaitOk(s', s'.threads[j])
  {
    if !s'.threads[j].woken && !Calm(s', s'.threads[j]) && !Calm(s, s.threads[j]) {
      var k :| 0 <= k < |s.threads| && s.threads[k].role == Other(s.threads[j].role) && WakePending(s.threads[k]);
      assert s'.threads[k].role == Other(s'.threads[j].role) && WakePending(s'.threads[k]);
    }
  }

  /** Moving one's own side's pointer on does not put anything waiting on that side in danger. */
  lemma CalmKeeps(s: State, s': State, t: Thread, t': Thread)
    requires |s.buffer| >= 1 && |s'.buffer| == |s.buffer| && (t' == t || t' == t.(woken := true))
    requires if t.role == Reader then s'.wp == s.wp else s'.rp == s.rp
    requires Blocked(s, t.role) ==> Blocked(s', t.role)
    requires Calm(s, t)
    ensures Calm(s', t')
  {
  }

  /** Whatever the two loads of a test see, it only decides to sleep if there is nothing to do. */
  lemma LoadCalm(s: State, t: Thread, t': Thread)
    requires |s.buffer| >= 1 && Load(s, t, t') && Calm(s, t)
    requires t.pc == SpaceR || t.pc == SpaceW ==> t.role == Writer
    ensures Calm(s, t') && t'.role == t.role && t'.woken == t.woken
  {
    if t.pc == SpaceR && Gap(|s.buffer|, t.seen, s.wp) == 0 {
      GapZero(|s.buffer|, t.seen, s.wp);
    }
    if t.pc == SpaceW && Gap(|s.buffer|, s.rp, t.seen) == 0 {
      GapZero(|s.buffer|, s.rp, t.seen);
    }
  }

  /** Nothing is in danger as long as the ring stays and no process forgets to wake the others. */
  lemma QuietKeeps(s: State, s': State, i: nat)
    requires Inv(s) && Mutex(s') && RingSame(s, s') && OthersSame(s, s', i) && s'.threads[i].role == s.threads[i].role
    requires s.threads[i].pc != Wrap
    requires forall j :: 0 <= j < |s.threads| && j != i ==> s'.threads[j] == s.threads[j]
    requires WakePending(s.threads[i]) ==> WakePending(s'.threads[i])
    requires RingOk(s.buffer, s.rp, s.wp) && Transfer(s', s'.threads[i]) && WaitOk(s', s'.threads[i])
    ensures Inv(s')
  {
    QuietPointers(s, s', i);
    forall j | 0 <= j < |s'.threads| ensures Transfer(s', s'.threads[j]) && WaitOk(s', s'.threads[j]) {
      if j != i {
        QuietOther(s, s', i, j);
      }
    }
  }

  lemma QuietPointers(s: State, s': State, i: nat)
    requires Mutex(s) && Pointers(s) && Mutex(s') && RingSame(s, s') && OthersSame(s, s', i)
    requires s.threads[i].pc != Wrap
    ensures Pointers(s')
  {
    hide RingOk;
    forall j | 0 <= j < |s.threads| && s.threads[j].pc == Wrap
      ensures s'.sem == Held(j) && s'.threads[j].pc == Wrap && s'.threads[j].role == s.threads[j].role
    {
      assert j != i;
    }
  }

  lemma QuietOther(s: State, s': State, i: nat, j: nat)
    requires Inv(s) && RingSame(s, s') && OthersSame(s, s', i) && j < |s.threads| && j != i
    requires s'.threads[i].role == s.threads[i].role
    requires WakePending(s.threads[i]) ==>
               WakePending(s'.threads[i]) || s'.threads[j].woken || Calm(s, s.threads[j]) ||
               s.threads[i].role == s.threads[j].role
    ensures RingOk(s'.buffer, s'.rp, s'.wp)
    ensures Transfer(s', s'.threads[j]) && WaitOk(s', s'.threads[j])
  {
    assert Transfer(s, s.threads[j]) && WaitOk(s, s.threads[j]);
    hide Inv, Mutex, Pointers, Queue, ReadChunk, WriteChunk, SpaceFree, Load;
    SameTransfer(s, s', s.threads[j], s'.threads[j]);
    if Calm(s, s.threads[j]) { CalmKeeps(s, s', s.threads[j], s'.threads[j]); }
    hide OthersSame, Transfer, Calm, WaitOk, Blocked;
    SleepersKeep(s, s', i, j);
  }

  lemma SameTransfer(s: State, s': State, t: Thread, t': Thread)
    requires RingOk(s.buffer, s.rp, s.wp) && RingSame(s, s') && Transfer(s, t)
    requires t' == t || t' == t.(woken := true)
    ensures RingOk(s'.buffer, s'.rp, s'.wp) && Transfer(s', t')
  {
    hide Queue, ReadChunk, WriteChunk, SpaceFree;
  }

  lemma LocalKeeps(s: State, s': State, i: nat)
    requires Inv(s) && Step(s, s', i)
    requires Local(s, s.threads[i], s'.threads[i]) && s' == Set(s, i, s'.threads[i])
    ensures Inv(s')
  {
    hide Step, Local;
    MutexKeeps(s, s', i);
    StepFrame(s, s', i);
    var t, t' := s.threads[i], s'.threads[i];
    assert Transfer(s, t) && WaitOk(s, t);
    LocalThread(s, t, t');
    hide Transfer, WaitOk;
    if Rechecks(t.pc) {
      LocalLoads(s, t, t');
      LoadSelf(s, s', i);
    } else {
      LocalSelf(s, s', t, t');
    }
    QuietKeeps(s, s', i);
  }

  lemma LocalLoads(s: State, t: Thread, t': Thread)
    requires |s.buffer| >= 1 && Local(s, t, t') && Rechecks(t.pc)
    ensures Load(s, t, t')
  {
  }

  lemma LocalSelf(s: State, s': State, t: Thread, t': Thread)
    requires RingOk(s.buffer, s.rp, s.wp) && RingSame(s, s') && Transfer(s, t)
    requires Local(s, t, t') && !Rechecks(t.pc)
    ensures Transfer(s', t') && WaitOk(s', t')
  {
    hide Queue, ReadChunk, WriteChunk, SpaceFree, Load;
    assert Calm(s', t');
  }

  lemma LockKeeps(s: State, s': State, i: nat)
    requires Inv(s) && Step(s, s', i)
    requires Lock(s, i, s.threads[i], s'.threads[i], s'.sem) && s' == Set(s, i, s'.threads[i]).(sem := s'.sem)
    ensures Inv(s')
  {
    hide Step, Lock;
    MutexKeeps(s, s', i);
    StepFrame(s, s', i);
    var t, t' := s.threads[i], s'.threads[i];
    assert Transfer(s, t);
    LockThread(s, i, t, t', s'.sem);
    hide Transfer, WaitOk;
    LockSelf(s, s', t, t');
    QuietKeeps(s, s', i);
  }

  lemma LockSelf(s: State, s': State, t: Thread, t': Thread)
    requires RingOk(s.buffer, s.rp, s.wp) && RingSame(s, s') && Transfer(s, t) && t' == t.(pc := t'.pc)
    requires t'.pc == Check || t'.pc == Idle || t'.pc == Prepare || t'.pc == Wake
    requires t.pc != Idle
    ensures Transfer(s', t') && WaitOk(s', t')
  {
    hide Queue, ReadChunk, WriteChunk, SpaceFree;
    assert Calm(s', t');
  }

  lemma WakeKeeps(s: State, s': State, i: nat)
    requires Inv(s) && Step(s, s', i) && WakeUp(s, s', i)
    ensures Inv(s')
  {
    hide Step, WakeUp, Queue, ReadChunk, WriteChunk, SpaceFree;
    MutexKeeps(s, s', i);
    StepFrame(s, s', i);
    WakeFrame(s, s', i);
    QuietPointers(s, s', i);
    assert Transfer(s, s.threads[i]);
    forall j | 0 <= j < |s'.threads| ensures Transfer(s', s'.threads[j]) && WaitOk(s', s'.threads[j]) {
      if j != i {
        QuietOther(s, s', i, j);
      }
    }
  }

  lemma LoadSelf(s: State, s': State, i: nat)
    requires OthersSame(s, s', i) && s' == Set(s, i, s'.threads[i]) && |s.buffer| >= 1
    requires RingOk(s.buffer, s.rp, s.wp) && Transfer(s, s.threads[i]) && WaitOk(s, s.threads[i])
    requires Rechecks(s.threads[i].pc) && Load(s, s.threads[i], s'.threads[i])
    ensures Transfer(s', s'.threads[i]) && WaitOk(s', s'.threads[i])
  {
    var t, t' := s.threads[i], s'.threads[i];
    LoadThread(s, t, t');
    if Calm(s, t) {
      LoadCalm(s, t, t');
      assert Calm(s', t');
    } else if !t.woken {
      hide Load, Transfer, Calm;
      var j :| 0 <= j < |s.threads| && s.threads[j].role == Other(t.role) && WakePending(s.threads[j]);
      assert s'.threads[j] == s.threads[j];
    }
    hide Load, Calm, WaitOk;
  }

  lemma LoadThread(s: State, t: Thread, t': Thread)
    requires |s.buffer| >= 1 && Load(s, t, t') && Rechecks(t.pc)
    ensures t'.role == t.role && t'.woken == t.woken && t'.count == t.count && t'.data == t.data
    ensures Queued(t'.pc)
    ensures t'.pc == Space || t'.pc == SpaceR || t'.pc == SpaceW ==> t.role == Writer || t.pc == Space
  {
  }

  /** What a transfer means to another process: its own side's pointer may move on, the other
      side's only while somebody is still to wake it. */
  lemma MoveOther(s: State, s': State, i: nat, j: nat)
    requires |s.buffer| >= 1 && OthersSame(s, s', i) && s'.threads[i].role == s.threads[i].role
    requires j < |s.threads| && j != i && s'.threads[j] == s.threads[j] && !Holds(s.threads[j].pc)
    requires RingOk(s.buffer, s.rp, s.wp) && RingOk(s'.buffer, s'.rp, s'.wp) && |s'.buffer| == |s.buffer|
    requires Transfer(s, s.threads[j]) && WaitOk(s, s.threads[j])
    requires WakePending(s.threads[i]) ==> WakePending(s'.threads[i])
    requires (s'.rp == s.rp && s'.wp == s.wp) || WakePending(s'.threads[i])
    requires if s.threads[i].role == Reader then s'.wp == s.wp else s'.rp == s.rp
    requires Blocked(s, s.threads[i].role) ==> Blocked(s', s.threads[i].role)
    ensures Transfer(s', s'.threads[j]) && WaitOk(s', s'.threads[j])
  {
    hide RingOk, Queue, Gap;
    var t := s.threads[j];
    if Calm(s, t) && t.role == s.threads[i].role { CalmKeeps(s, s', t, t); }
    if Calm(s, t) && s'.rp == s.rp && s'.wp == s.wp { CalmKeeps(s, s', t, t); }
    hide Calm, Blocked;
    SleepersKeep(s, s', i, j);
  }

  lemma CopyKeeps(s: State, s': State, i: nat)
    requires Inv(s) && Step(s, s', i) && Move(s, s', i) && s.threads[i].pc == Copy
    ensures Inv(s')
  {
    CopyQueue(s, s', i);
    CopySelf(s, s', i);
    MoveKeeps(s, s', i);
  }

  /** A transfer step keeps the invariant if it does so for the ring and the process itself. */
  lemma MoveKeeps(s: State, s': State, i: nat)
    requires Inv(s) && Step(s, s', i) && Move(s, s', i) && i < |s'.threads|
    requires Pointers(s') && RingOk(s.buffer, s.rp, s.wp) && RingOk(s'.buffer, s'.rp, s'.wp)
    requires Transfer(s', s'.threads[i]) && WaitOk(s', s'.threads[i])
    requires s'.accepted == s'.delivered + Queue(s'.buffer, s'.rp, s'.wp)
    requires (s'.rp == s.rp && s'.wp == s.wp) || WakePending(s'.threads[i])
    requires if s.threads[i].role == Reader then s'.wp == s.wp else s'.rp == s.rp
    requires Blocked(s, s.threads[i].role) ==> Blocked(s', s.threads[i].role)
    ensures Inv(s')
  {
    assert |s.buffer| >= 1 && |s'.buffer| >= 1;
    hide Step, Move, Queue, Blocked, RingOk;
    MutexKeeps(s, s', i);
    StepFrame(s, s', i);
    MoveFrame(s, s', i);
    hide Pointers, Transfer, WaitOk;
    forall j | 0 <= j < |s'.threads| ensures Transfer(s', s'.threads[j]) && WaitOk(s', s'.threads[j]) {
      if j != i {
        assert Transfer(s, s.threads[j]) && WaitOk(s, s.threads[j]);
        OnlyHolderTransfers(s, i, j);
        MoveOther(s, s', i, j);
      }
    }
  }

  lemma CopySelf(s: State, s': State, i: nat)
    requires Inv(s) && Step(s, s', i) && Move(s, s', i) && s.threads[i].pc == Copy
    ensures Pointers(s') && i < |s'.threads| && Transfer(s', s'.threads[i]) && WaitOk(s', s'.threads[i])
  {
    hide Queue, ReadChunk, WriteChunk, SpaceFree, Local, Lock, WakeUp, WakeAll;
    StepFrame(s, s', i);
    CopyQueue(s, s', i);
    assert Transfer(s, s.threads[i]);
  }

  lemma CopyQueue(s: State, s': State, i: nat)
    requires Inv(s) && Step(s, s', i) && Move(s, s', i) && s.threads[i].pc == Copy
    ensures Queue(s'.buffer, s'.rp, s'.wp) == Queue(s.buffer, s.rp, s.wp)
    ensures s.threads[i].role == Writer ==>
              && s.wp + s.threads[i].n <= |s'.buffer|
              && s'.buffer[s.wp..s.wp + s.threads[i].n] == s.threads[i].data[..s.threads[i].n]
  {
    var t := s.threads[i];
    assert Transfer(s, t);
    WriteChunkFits(|s.buffer|, s.rp, s.wp, t.count);
    if t.role == Writer {
      StoreUnseen(s.buffer, s'.buffer, s.rp, s.wp, t.n);
    }
  }

  lemma LogWrite(accepted: seq<byte>, delivered: seq<byte>, q: seq<byte>, chunk: seq<byte>, q': seq<byte>)
    requires accepted == delivered + q && q' == q + chunk
    ensures accepted + chunk == delivered + q'
  {
    Assoc(delivered, q, chunk);
  }

  lemma LogRead(accepted: seq<byte>, delivered: seq<byte>, q: seq<byte>, chunk: seq<byte>, q': seq<byte>)
    requires accepted == delivered + q && q == chunk + q'
    ensures accepted == delivered + chunk + q'
  {
    Assoc(delivered, chunk, q');
  }

  lemma AdvanceQueue(s: State, s': State, i: nat)
    requires Inv(s) && Step(s, s', i) && Move(s, s', i) && s.threads[i].pc == Advance
    ensures RingOk(s'.buffer, s'.rp, s'.wp)
    ensures s'.accepted == s'.delivered + Queue(s'.buffer, s'.rp, s'.wp)
  {
    var t := s.threads[i];
    assert Transfer(s, t);
    AdvanceStep(s, s', i);
    hide *;
    if t.role == Reader {
      ReaderLog(s, t);
    } else {
      WriterLog(s, t);
    }
  }

  lemma ReaderLog(s: State, t: Thread)
    requires RingOk(s.buffer, s.rp, s.wp) && Transfer(s, t) && t.pc == Advance && t.role == Reader
    requires s.accepted == s.delivered + Queue(s.buffer, s.rp, s.wp)
    ensures RingOk(s.buffer, s.rp + t.n, s.wp)
    ensures s.accepted == s.delivered + t.data + Queue(s.buffer, s.rp + t.n, s.wp)
  {
    AdvanceReader(s, t);
    hide *;
    LogRead(s.accepted, s.delivered, Queue(s.buffer, s.rp, s.wp), t.data, Queue(s.buffer, s.rp + t.n, s.wp));
  }

  lemma WriterLog(s: State, t: Thread)
    requires RingOk(s.buffer, s.rp, s.wp) && Transfer(s, t) && t.pc == Advance && t.role == Writer
    requires s.accepted == s.delivered + Queue(s.buffer, s.rp, s.wp)
    ensures RingOk(s.buffer, s.rp, s.wp + t.n) && t.n <= |t.data|
    ensures s.accepted + t.data[..t.n] == s.delivered + Queue(s.buffer, s.rp, s.wp + t.n)
  {
    AdvanceWriter(s, t);
    hide *;
    LogWrite(s.accepted, s.delivered, Queue(s.buffer, s.rp, s.wp), t.data[..t.n], Queue(s.buffer, s.rp, s.wp + t.n));
  }

  lemma AdvanceStep(s: State, s': State, i: nat)
    requires i < |s.threads| && Move(s, s', i) && s.threads[i].pc == Advance
    ensures var t := s.threads[i];
            && s'.buffer == s.buffer
            && (t.role == Writer ==> t.n <= |t.data|)
            && s'.rp == (if t.role == Reader then s.rp + t.n else s.rp)
            && s'.wp == (if t.role == Reader then s.wp else s.wp + t.n)
            && s'.accepted == (if t.role == Reader then s.accepted else s.accepted + t.data[..t.n])
            && s'.delivered == (if t.role == Reader then s.delivered + t.data else s.delivered)
  {
  }

  lemma AdvanceReader(s: State, t: Thread)
    requires RingOk(s.buffer, s.rp, s.wp) && Transfer(s, t) && t.pc == Advance && t.role == Reader
    ensures RingOk(s.buffer, s.rp + t.n, s.wp)
    ensures Queue(s.buffer, s.rp, s.wp) == t.data + Queue(s.buffer, s.rp + t.n, s.wp)
  {
    hide Queue, SpaceFree, WriteChunk;
    ReadChunkBounds(|s.buffer|, s.rp, s.wp, t.count);
    AdvanceRead(s.buffer, s.rp, s.wp, t.n);
  }

  lemma AdvanceWriter(s: State, t: Thread)
    requires RingOk(s.buffer, s.rp, s.wp) && Transfer(s, t) && t.pc == Advance && t.role == Writer
    ensures RingOk(s.buffer, s.rp, s.wp + t.n)
    ensures Queue(s.buffer, s.rp, s.wp + t.n) == Queue(s.buffer, s.rp, s.wp) + t.data[..t.n]
  {
    hide Queue, ReadChunk;
    WriteChunkFits(|s.buffer|, s.rp, s.wp, t.count);
    AdvanceWrite(s.buffer, s.rp, s.wp, t.n);
  }

  lemma AdvanceKeeps(s: State, s': State, i: nat)
    requires Inv(s) && Step(s, s', i) && Move(s, s', i) && s.threads[i].pc == Advance
    ensures Inv(s')
  {
    AdvanceQueue(s, s', i);
    AdvanceSelf(s, s', i);
    MoveKeeps(s, s', i);
  }

  lemma AdvanceSelf(s: State, s': State, i: nat)
    requires Inv(s) && Step(s, s', i) && Move(s, s', i) && s.threads[i].pc == Advance
    requires RingOk(s'.buffer, s'.rp, s'.wp)
    ensures Pointers(s') && Transfer(s', s'.threads[i]) && WaitOk(s', s'.threads[i])
    ensures RingOk(s.buffer, s.rp, s.wp) && !Blocked(s, s.threads[i].role)
  {
    assert Transfer(s, s.threads[i]);
    hide RingOk, Queue, ReadChunk, WriteChunk, SpaceFree;
  }

  /** Before wrapping, neither side finds the ring it moved in blocked; wrapping decides nothing else. */
  lemma WrapBlocked(s: State, s': State, i: nat)
    requires Inv(s) && Step(s, s', i) && Move(s, s', i) && s.threads[i].pc == Wrap
    ensures Blocked(s, s.threads[i].role) ==> Blocked(s', s.threads[i].role)
    ensures RingOk(s'.buffer, s'.rp, s'.wp) && s'.rp < |s'.buffer| && s'.wp < |s'.buffer|
    ensures Queue(s'.buffer, s'.rp, s'.wp) == Queue(s.buffer, s.rp, s.wp)
  {
    WrapUnseen(s.buffer, s.rp, s.wp);
    hide Queue;
    if s.wp == |s.buffer| {
      SpaceFreeAtEnd(|s.buffer|, s.rp);
    }
  }

  lemma SpaceFreeAtEnd(size: nat, rp: nat)
    requires size >= 1 && 0 < rp < size
    ensures SpaceFree(size, rp, size) == SpaceFree(size, rp, 0)
  {
    Remainder(rp, size);
    assert rp + size - size == rp && rp + size - 0 == rp + size;
  }

  lemma WrapKeeps(s: State, s': State, i: nat)
    requires Inv(s) && Step(s, s', i) && Move(s, s', i) && s.threads[i].pc == Wrap
    ensures Inv(s')
  {
    WrapBlocked(s, s', i);
    WrapSelf(s, s', i);
    MoveKeeps(s, s', i);
  }

  lemma WrapSelf(s: State, s': State, i: nat)
    requires Inv(s) && Step(s, s', i) && Move(s, s', i) && s.threads[i].pc == Wrap
    requires RingOk(s'.buffer, s'.rp, s'.wp) && s'.rp < |s'.buffer| && s'.wp < |s'.buffer|
    ensures Pointers(s') && Transfer(s', s'.threads[i]) && WaitOk(s', s'.threads[i])
    ensures RingOk(s.buffer, s.rp, s.wp) && s'.accepted == s.accepted && s'.delivered == s.delivered
    ensures if s.threads[i].role == Reader then s'.wp == s.wp else s'.rp == s.rp
  {
    assert Transfer(s, s.threads[i]);
    hide Queue, ReadChunk, WriteChunk, SpaceFree;
  }

  lemma StepKeeps(s: State, s': State, i: nat)
    requires Inv(s) && Step(s, s', i)
    ensures Inv(s')
  {
    hide Inv, Local, Lock, Move, WakeUp;
    var t, t' := s.threads[i], s'.threads[i];
    if Local(s, t, t') && s' == Set(s, i, t') {
      LocalKeeps(s, s', i);
    } else if Lock(s, i, t, t', s'.sem) && s' == Set(s, i, t').(sem := s'.sem) {
      LockKeeps(s, s', i);
    } else if WakeUp(s, s', i) {
      WakeKeeps(s, s', i);
    } else {
      MoveFrame(s, s', i);
      match t.pc
      case Copy => CopyKeeps(s, s', i);
      case Advance => AdvanceKeeps(s, s', i);
      case Wrap => WrapKeeps(s, s', i);
    }
  }

  lemma TransferFits(s: State, i: nat)
    requires Inv(s) && i < |s.threads|
    ensures var t := s.threads[i];
            && (t.pc == Check ==> s.rp < |s.buffer| && s.wp < |s.buffer|)
            && (t.pc == Copy && t.role == Reader ==> s.rp + t.n <= |s.buffer|)
            && (t.pc == Copy && t.role == Writer ==> s.wp + t.n <= |s.buffer|)
            && (t.role == Writer && (t.pc == Copy || t.pc == Advance) ==> t.n <= |t.data|)
  {
    var t := s.threads[i];
    assert Transfer(s, t);
    if t.pc == Copy {
      WriteChunkFits(|s.buffer|, s.rp, s.wp, t.count);
      if t.role == Reader {
        ReadChunkBounds(|s.buffer|, s.rp, s.wp, t.count);
      }
    }
  }

  lemma CanLoad(s: State, t: Thread) returns (t': Thread)
    requires |s.buffer| >= 1 && Rechecks(t.pc)
    ensures Load(s, t, t')
  {
    hide SpaceFree, Gap;
    match t.pc
    case Recheck => t' := t.(pc := RecheckR, seen := s.rp);
    case RecheckR =>
      var blocked := if t.role == Reader then t.seen == s.wp else SpaceFree(|s.buffer|, t.seen, s.wp) == 0;
      t' := t.(pc := if blocked then Schedule else Finish);
    case RecheckW =>
      var blocked := if t.role == Reader then s.rp == t.seen else SpaceFree(|s.buffer|, s.rp, t.seen) == 0;
      t' := t.(pc := if blocked then Schedule else Finish);
    case Space => t' := t.(pc := SpaceR, seen := s.rp);
    case SpaceR => t' := t.(pc := if Gap(|s.buffer|, t.seen, s.wp) == 0 then Schedule else Finish);
    case SpaceW => t' := t.(pc := if Gap(|s.buffer|, s.rp, t.seen) == 0 then Schedule else Finish);
  }

  lemma CanLocal(s: State, t: Thread) returns (t': Thread)
    requires |s.buffer| >= 1 && (t.pc == Check ==> s.rp < |s.buffer| && s.wp < |s.buffer|)
    requires t.pc == Idle || t.pc == Down || t.pc == Check || t.pc == Prepare || Queued(t.pc)
    ensures Local(s, t, t')
  {
    hide Load, Blocked, Chunk;
    match t.pc
    case Idle => t' := t.(pc := Down, count := |t.data|);
    case Down => t' := t.(pc := Idle);
    case Check => t' := if Blocked(s, t.role) then t.(pc := Up) else t.(pc := Copy, n := Chunk(s, t));
    case Prepare => t' := t.(pc := Recheck, woken := false);
    case Schedule => t' := t.(pc := Finish, woken := true);
    case Finish => t' := t.(pc := Down);
    case _ => t' := CanLoad(s, t);
  }

  lemma CanMove(s: State, i: nat) returns (s': State)
    requires i < |s.threads|
    requires var t := s.threads[i];
             && (t.pc == Copy || t.pc == Advance || t.pc == Wrap)
             && (t.pc == Copy && t.role == Reader ==> s.rp + t.n <= |s.buffer|)
             && (t.pc == Copy && t.role == Writer ==> s.wp + t.n <= |s.buffer|)
             && (t.role == Writer && t.pc != Wrap ==> t.n <= |t.data|)
    ensures Move(s, s', i) && |s'.threads| == |s.threads|
  {
    var t := s.threads[i];
    match t.pc
    case Copy =>
      if t.role == Reader {
        s' := Set(s, i, t.(pc := Advance, data := s.buffer[s.rp..s.rp + t.n]));
      } else {
        s' := Set(s, i, t.(pc := Advance)).(buffer := s.buffer[..s.wp] + t.data[..t.n] + s.buffer[s.wp + t.n..]);
      }
    case Advance =>
      s' := if t.role == Reader then Set(s, i, t.(pc := Wrap)).(rp := s.rp + t.n, delivered := s.delivered + t.data)
            else Set(s, i, t.(pc := Wrap)).(wp := s.wp + t.n, accepted := s.accepted + t.data[..t.n]);
    case Wrap =>
      s' := if t.role == Reader then Set(s, i, t.(pc := Release)).(rp := Wrapped(s.rp, |s.buffer|))
            else Set(s, i, t.(pc := Release)).(wp := Wrapped(s.wp, |s.buffer|));
  }

  /** The guards of Copy and Check never hold a process back: in a sound state every process
      has a step (if need be, one that a signal causes). */
  lemma EveryProcessCanMove(s: State, i: nat) returns (s': State)
    requires Inv(s) && i < |s.threads|
    ensures Step(s, s', i)
  {
    var t := s.threads[i];
    TransferFits(s, i);
    hide Inv, Local, Move;
    match t.pc
    case Up => s' := Set(s, i, t.(pc := Prepare)).(sem := Nobody);
    case Release => s' := Set(s, i, t.(pc := Wake)).(sem := Nobody);
    case Copy | Advance | Wrap => s' := CanMove(s, i);
    case Wake => s' := s.(threads := WakeAll(Set(s, i, t.(pc := Idle)).threads, Other(t.role)));
    case _ =>
      var t' := CanLocal(s, t);
      s' := Set(s, i, t');
  }

  // ----- whole behaviours -----

  /** An interleaving: from a freshly opened pipe, process steps[k] makes step k. */
  ghost predicate Behaviour(states: seq<State>, steps: seq<nat>) {
    && |states| == |steps| + 1 && Init(states[0])
    && forall k :: 0 <= k < |steps| ==> Step(states[k], states[k + 1], steps[k])
  }

  lemma InitInv(s: State)
    requires Init(s)
    ensures Inv(s)
  {
  }

  lemma {:induction false} BehaviourSafe(states: seq<State>, steps: seq<nat>, k: nat)
    requires Behaviour(states, steps) && k < |states|
    ensures Inv(states[k])
    decreases k
  {
    hide Inv, Step, Init;
    if k == 0 {
      InitInv(states[0]);
    } else {
      BehaviourSafe(states, steps, k - 1);
      assert Step(states[k - 1], states[k], steps[k - 1]);
      StepKeeps(states[k - 1], states[k], steps[k - 1]);
    }
  }

  /** No lost wake-up: in every interleaving of any number of processes, a writer is asleep
      only while there is no space, or a reader is still to wake it; dually for readers. */
  lemma NoLostWakeUp(states: seq<State>, steps: seq<nat>, k: nat, i: nat)
    requires Behaviour(states, steps) && k < |states| && i < |states[k].threads|
    requires Asleep(states[k].threads[i])
    ensures |states[k].buffer| >= 1
    ensures var s := states[k];
            var role := s.threads[i].role;
            (Blocked(s, role) && NothingToDo(s, role)) ||
            exists j :: 0 <= j < |s.threads| && s.threads[j].role == Other(role) && WakePending(s.threads[j])
  {
    BehaviourSafe(states, steps, k);
    var s := states[k];
    assert WaitOk(s, s.threads[i]);
    BlockedMeans(s, s.threads[i].role);
  }

  /** In terms of the bytes in the pipe: it is empty, or as full as it gets. */
  ghost predicate NothingToDo(s: State, role: Role) {
    && s.rp <= |s.buffer| && s.wp <= |s.buffer|
    && match role
       case Reader => Queue(s.buffer, s.rp, s.wp) == []
       case Writer => |Queue(s.buffer, s.rp, s.wp)| == |s.buffer| - 1
  }

  lemma BlockedMeans(s: State, role: Role)
    requires RingOk(s.buffer, s.rp, s.wp)
    ensures Blocked(s, role) ==> NothingToDo(s, role)
    ensures s.rp < |s.buffer| && s.wp < |s.buffer| ==> (Blocked(s, role) <==> NothingToDo(s, role))
  {
    var size := |s.buffer|;
    if s.rp < size && s.wp < size {
      QueuedPlusFree(s.buffer, s.rp, s.wp);
    } else if s.wp == size {
      SpaceFreeAtEnd(size, s.rp);
      SpaceFreeCases(size, s.rp, 0);
    } else if s.wp > 0 {
      Remainder(size - s.wp, size);
      assert s.rp + size - s.wp == size - s.wp + size;
    } else {
      Remainder(0, size);
      TwoTurns(size);
    }
  }

  lemma TwoTurns(size: nat)
    requires size >= 1
    ensures (size + size) % size == 0
  {
    assert size + size == 2 * size;
  }

  /** Holding the semaphore, a process goes to sleep exactly if the pipe is empty, or full; otherwise
      it transfers as much as is asked for, as there is, and as lies in front of the end. */
  lemma CheckDecides(s: State, s': State, i: nat)
    requires Inv(s) && Step(s, s', i) && s.threads[i].pc == Check
    ensures s.rp < |s.buffer| && s.wp < |s.buffer|
    ensures var t, t', size, queued := s.threads[i], s'.threads[i], |s.buffer|, |Queue(s.buffer, s.rp, s.wp)|;
            if t.role == Reader then
              if queued == 0 then t'.pc == Up
              else t'.pc == Copy && t'.n == Min(t.count, if s.rp < s.wp then queued else size - s.rp)
            else
              if queued == size - 1 then t'.pc == Up
              else
                && t'.pc == Copy
                && t'.n == Min(Min(t.count, size - 1 - queued), if s.wp < s.rp then size - 1 - queued else size - s.wp)
  {
    var t := s.threads[i];
    QueuedPlusFree(s.buffer, s.rp, s.wp);
    QueueLength(s.buffer, s.rp, s.wp);
    WriteChunkFits(|s.buffer|, s.rp, s.wp, t.count);
    SpaceFreeCases(|s.buffer|, s.rp, s.wp);
    hide Queue, SpaceFree, Inv, WakeUp, Move, Lock, Load;
  }

  /** In every interleaving, what the readers got is a prefix of what the writers put in, in
      order, and the pipe never holds more than |buffer| - 1 bytes. */
  lemma BytesInOrder(states: seq<State>, steps: seq<nat>, k: nat)
    requires Behaviour(states, steps) && k < |states|
    ensures states[k].delivered <= states[k].accepted
    ensures |states[k].accepted| - |states[k].delivered| <= |states[k].buffer| - 1
  {
    BehaviourSafe(states, steps, k);
    var s := states[k];
    WrapUnseen(s.buffer, s.rp, s.wp);
    var rp, wp := Wrapped(s.rp, |s.buffer|), Wrapped(s.wp, |s.buffer|);
    QueuedPlusFree(s.buffer, rp, wp);
    WriteChunkFits(|s.buffer|, rp, wp, 0);
  }

  /** Both sides at rest: no process is left that could wake another. */
  ghost predicate Stuck(s: State) {
    && (exists i :: 0 <= i < |s.threads| && Asleep(s.threads[i]) && s.threads[i].role == Reader)
    && (exists i :: 0 <= i < |s.threads| && Asleep(s.threads[i]) && s.threads[i].role == Writer)
    && (forall i :: 0 <= i < |s.threads| ==> !WakePending(s.threads[i]))
  }

  /** Readers and writers never sleep on each other, except over a buffer of one byte, which
      is full and empty at the same time. */
  lemma NoDeadlock(states: seq<State>, steps: seq<nat>, k: nat)
    requires Behaviour(states, steps) && k < |states| && Stuck(states[k])
    ensures |states[k].buffer| == 1
  {
    BehaviourSafe(states, steps, k);
    var s := states[k];
    var i :| 0 <= i < |s.threads| && Asleep(s.threads[i]) && s.threads[i].role == Reader;
    var j :| 0 <= j < |s.threads| && Asleep(s.threads[j]) && s.threads[j].role == Writer;
    assert WaitOk(s, s.threads[i]) && WaitOk(s, s.threads[j]);
  }

  lemma Extend(states: seq<State>, steps: seq<nat>, s': State, i: nat) returns (states': seq<State>, steps': seq<nat>)
    requires Behaviour(states, steps) && Step(states[|steps|], s', i)
    ensures Behaviour(states', steps') && states'[|steps'|] == s' && states'[0] == states[0]
  {
    states', steps' := states + [s'], steps + [i];
    hide Step, Init;
    forall k | 0 <= k < |steps'| ensures Step(states'[k], states'[k + 1], steps'[k]) {
      if k < |steps| {
        assert Step(states[k], states[k + 1], steps[k]);
      }
    }
  }

  lemma ExtendLocal(states: seq<State>, steps: seq<nat>, i: nat, t': Thread)
      returns (states': seq<State>, steps': seq<nat>)
    requires Behaviour(states, steps) && i < |states[|steps|].threads| && |states[|steps|].buffer| >= 1
    requires Local(states[|steps|], states[|steps|].threads[i], t')
    ensures Behaviour(states', steps') && states'[|steps'|] == Set(states[|steps|], i, t') && states'[0] == states[0]
  {
    hide Local;
    states', steps' := Extend(states, steps, Set(states[|steps|], i, t'), i);
  }

  lemma ExtendLock(states: seq<State>, steps: seq<nat>, i: nat, t': Thread, sem: Holder)
      returns (states': seq<State>, steps': seq<nat>)
    requires Behaviour(states, steps) && i < |states[|steps|].threads| && |states[|steps|].buffer| >= 1
    requires Lock(states[|steps|], i, states[|steps|].threads[i], t', sem)
    ensures Behaviour(states', steps') && states'[|steps'|] == Set(states[|steps|], i, t').(sem := sem)
    ensures states'[0] == states[0]
  {
    hide Lock;
    states', steps' := Extend(states, steps, Set(states[|steps|], i, t').(sem := sem), i);
  }

  /** Over a one-byte buffer any process that enters the driver finds nothing to do. */
  lemma FindsNothing(states: seq<State>, steps: seq<nat>, i: nat, t: Thread)
      returns (states': seq<State>, steps': seq<nat>)
    requires Behaviour(states, steps)
    requires var s := states[|steps|];
             && s.rp == 0 && s.wp == 0 && |s.buffer| == 1 && s.sem == Nobody
             && i < |s.threads| && s.threads[i].pc == Idle
             && t == Thread(s.threads[i].role, Prepare, false, 0, 0, [], 0)
    ensures Behaviour(states', steps') && states'[0] == states[0]
    ensures states'[|steps'|] == Set(states[|steps|], i, t)
  {
    var s := states[|steps|];
    hide Behaviour;
    states', steps' := ExtendLocal(states, steps, i, t.(pc := Down));
    states', steps' := ExtendLock(states', steps', i, t.(pc := Check), Held(i));
    states', steps' := ExtendLocal(states', steps', i, t.(pc := Up));
    states', steps' := ExtendLock(states', steps', i, t, Nobody);
  }

  /** And goes to sleep. */
  lemma GoesToSleep(states: seq<State>, steps: seq<nat>, i: nat) returns (states': seq<State>, steps': seq<nat>)
    requires Behaviour(states, steps)
    requires var s := states[|steps|];
             s.rp == 0 && s.wp == 0 && |s.buffer| == 1 && s.sem == Nobody && i < |s.threads| && s.threads[i].pc == Idle
    ensures Behaviour(states', steps') && states'[0] == states[0]
    ensures var s, s' := states[|steps|], states'[|steps'|];
            && |s'.threads| == |s.threads| && s' == Set(s, i, s'.threads[i])
            && Asleep(s'.threads[i]) && s'.threads[i].role == s.threads[i].role
  {
    var s := states[|steps|];
    hide Behaviour, Lock;
    var t := Thread(s.threads[i].role, Prepare, false, 0, 0, [], 0);
    states', steps' := FindsNothing(states, steps, i, t);
    states', steps' := ExtendLocal(states', steps', i, t.(pc := Recheck));
    states', steps' := ExtendLocal(states', steps', i, t.(pc := RecheckR));
    states', steps' := ExtendLocal(states', steps', i, t.(pc := Schedule));
  }

  /** The first n processes go to sleep, one after the other. */
  lemma {:induction false} FirstSleep(s: State, n: nat) returns (states: seq<State>, steps: seq<nat>)
    requires Init(s) && |s.buffer| == 1 && n <= |s.threads|
    ensures Behaviour(states, steps) && states[0] == s
    ensures var s' := states[|steps|];
            && |s'.threads| == |s.threads| && s' == s.(threads := s'.threads)
            && (forall i :: 0 <= i < n ==> Asleep(s'.threads[i]) && s'.threads[i].role == s.threads[i].role)
            && (forall i :: n <= i < |s.threads| ==> s'.threads[i] == s.threads[i])
  {
    if n == 0 {
      states, steps := [s], [];
    } else {
      states, steps := FirstSleep(s, n - 1);
      hide Behaviour, Step, Asleep;
      states, steps := GoesToSleep(states, steps, n - 1);
    }
  }

  /** The other half of NoDeadlock: over a buffer of one byte, whatever readers and writers there
      are, all of them can end up asleep, and if there are both, on each other. */
  lemma OneByteDeadlocks(s: State) returns (states: seq<State>, steps: seq<nat>)
    requires Init(s) && |s.buffer| == 1
    ensures Behaviour(states, steps) && states[0] == s
    ensures var s' := states[|steps|];
            && |s'.threads| == |s.threads|
            && (forall i :: 0 <= i < |s.threads| ==> Asleep(s'.threads[i]) && s'.threads[i].role == s.threads[i].role)
    ensures (exists i, j :: 0 <= i < |s.threads| && 0 <= j < |s.threads| &&
                            s.threads[i].role == Reader && s.threads[j].role == Writer) ==>
              Stuck(states[|steps|])
  {
    states, steps := FirstSleep(s, |s.threads|);
  }
}
