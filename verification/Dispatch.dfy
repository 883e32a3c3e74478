/** Block dispatch, the translation cache and chaining, as a protocol between any number of threads. */
module Dispatch {
  import opened Wrappers
  import opened GuestProgram

  // Every step below is what one thread does between two points at which another thread can interfere: taking the
  // lock, resolving the PC, patching the exit it came through, leaving the lock, one guest micro-operation of native
  // code, reaching an exit slot, and returning to the dispatcher. Native code runs outside the lock, so a slot may be
  // patched while other threads are inside the block it belongs to.

  type Addr = nat

  /** How a translated block ends. One and Two are chainable: each arm stores a constant PC and has a slot of
      its own; Leave stores a PC (if any), clears the chain address and returns the code. */
  datatype Exit =
    | One(target: Pc)
    | Two(cond: Machine -> bool, whenTrue: Pc, whenFalse: Pc)
    | Leave(code: nat, value: Option<PcValue>)

  /** A translation; origin is the guest PC it was made for. */
  datatype Translation = Translation(origin: Pc, body: seq<MicroOp>, exit: Exit)

  /** A patchable exit: the translation it lies in and the arm it belongs to. */
  datatype Slot = Slot(block: Addr, arm: bool)

  datatype Phase =
    | Ready                          // in the dispatcher loop, about to call invoke
    | Locked                         // holds big_fat_lock
    | Resolved(block: Addr)          // holds the lock, translation found or made
    | Linked(block: Addr)            // holds the lock, previous exit patched
    | Running(block: Addr, pos: nat) // in native code, no lock
    | Leaving(slot: Slot)            // passed an unpatched slot, has yet to store its PC and return
    | Serving                        // internal call in progress
    | Failed                         // translation threw, lock still held
    | Finished

  datatype Thread = Thread(phase: Phase, pc: Pc, regs: Regs, chain: Option<Slot>, depth: nat)

  /** What all threads share: the translation cache, the code, the patches made to it, the lock and guest memory. */
  datatype Shared = Shared(
    cache: map<Pc, Addr>,
    blocks: seq<Translation>,
    patched: map<Slot, Addr>,
    lock: Option<nat>,
    memory: Memory)

  datatype State = State(shared: Shared, threads: seq<Thread>)

  /** get_as_int on the value of a write_pc node. */
  function AsInt(v: PcValue): Option<Pc> {
    if v.Known? then Some(v.pc) else None
  }

  /** Exit selection: only a plain branch whose target, or whose two select arms, fold to constants is chainable. */
  function SelectExit(end: Terminator): Exit {
    match end
    case WritePc(Branch, v) =>
      if AsInt(v).Some? then One(AsInt(v).value)
      else if v.Select? && AsInt(v.whenFalse).Some? && AsInt(v.whenTrue).Some? then
        Two(v.cond, AsInt(v.whenTrue).value, AsInt(v.whenFalse).value)
      else Leave(0, Some(v))
    case WritePc(Call, v) => Leave(3, Some(v))
    case WritePc(Ret, v) => Leave(4, Some(v))
    case Syscall(next) => Leave(1, Some(Known(next)))
    case Trap => Leave(2, None)
  }

  function Translate(pc: Pc, b: GuestBlock): Translation {
    Translation(pc, b.body, SelectExit(b.end))
  }

  predicate HasSlot(e: Exit, arm: bool) {
    (e.One? && arm) || e.Two?
  }

  /** The constant PC the code after a slot stores. */
  function SlotTarget(e: Exit, arm: bool): Pc
    requires HasSlot(e, arm)
  {
    if e.One? then e.target else if arm then e.whenTrue else e.whenFalse
  }

  predicate SlotExists(blocks: seq<Translation>, slot: Slot) {
    slot.block < |blocks| && HasSlot(blocks[slot.block].exit, slot.arm)
  }

  // ---------------------------------------------------------------------------------------------
  // One step of thread t. With chaining off this is the plain dispatcher loop: the backend's chain
  // operation does nothing.
  // ---------------------------------------------------------------------------------------------

  /** What a step does: the shared state, the thread's own record and any thread it creates. */
  datatype Effect = Effect(shared: Shared, own: Thread, spawned: seq<Thread>)

  function LocalStep(g: Guest, chaining: bool, sh: Shared, t: nat, th: Thread): Effect {
    match th.phase
    case Ready =>
      if sh.lock.None? then Effect(sh.(lock := Some(t)), th.(phase := Locked), []) else Effect(sh, th, [])
    case Locked => Resolve(g, sh, th)
    case Resolved(a) => Effect(Link(chaining, sh, th.chain, a), th.(phase := Linked(a)), [])
    case Linked(a) => Effect(sh.(lock := None), th.(phase := Running(a, 0)), [])
    case Running(a, pos) => if a < |sh.blocks| then Execute(sh, th, a, pos) else Effect(sh, th, [])
    case Leaving(slot) =>
      if SlotExists(sh.blocks, slot) then
        var pc := SlotTarget(sh.blocks[slot.block].exit, slot.arm);
        Effect(sh, th.(phase := Ready, pc := pc, chain := Some(slot)), [])
      else Effect(sh, th, [])
    case Serving => Serve(g, sh, th)
    case Failed => Effect(sh, th, [])
    case Finished => Effect(sh, th, [])
  }

  /** get_translation: look the PC up, translating and inserting on a miss. */
  function Resolve(g: Guest, sh: Shared, th: Thread): Effect {
    if th.pc in sh.cache then Effect(sh, th.(phase := Resolved(sh.cache[th.pc])), [])
    else match g.code(th.pc)
      case None => Effect(sh, th.(phase := Failed), [])
      case Some(b) =>
        var added := |sh.blocks|;
        Effect(sh.(cache := sh.cache[th.pc := added], blocks := sh.blocks + [Translate(th.pc, b)]),
               th.(phase := Resolved(added)), [])
  }

  /** Patch the slot the thread's previous block left through, if it recorded one. */
  function Link(chaining: bool, sh: Shared, chain: Option<Slot>, a: Addr): Shared {
    if chaining && chain.Some? then sh.(patched := sh.patched[chain.value := a]) else sh
  }

  function Execute(sh: Shared, th: Thread, a: Addr, pos: nat): Effect
    requires a < |sh.blocks|
  {
    var b := sh.blocks[a];
    var m := Machine(th.regs, sh.memory);
    if pos < |b.body| then
      var m' := b.body[pos](m);
      Effect(sh.(memory := m'.memory), th.(phase := Running(a, pos + 1), regs := m'.regs), [])
    else match b.exit
      case One(_) => Effect(sh, Cross(sh.patched, th, Slot(a, true)), [])
      case Two(c, _, _) => Effect(sh, Cross(sh.patched, th, Slot(a, c(m))), [])
      case Leave(code, v) =>
        var pc := if v.Some? then EvalPc(v.value, m) else th.pc;
        Effect(sh, Return(th.(pc := pc, chain := None), code), [])
  }

  /** Reaching a slot: a patched one is a jump into the target block, which skips the PC store. */
  function Cross(patched: map<Slot, Addr>, th: Thread, slot: Slot): Thread {
    if slot in patched then th.(phase := Running(patched[slot], 0)) else th.(phase := Leaving(slot))
  }

  /** What the dispatcher loop does with an exit code: 3 re-enters the loop one level down, 4 leaves a level,
      1 is a system call, 2 an internal call that ends the run. */
  function Return(th: Thread, code: nat): Thread {
    if code == 0 then th.(phase := Ready)
    else if code == 3 then th.(phase := Ready, depth := th.depth + 1)
    else if code == 4 then
      if th.depth == 0 then th.(phase := Finished) else th.(phase := Ready, depth := th.depth - 1)
    else if code == 1 then th.(phase := Serving)
    else th.(phase := Finished)
  }

  /** A system call; one that clones adds a thread that has no recorded exit. */
  function Serve(g: Guest, sh: Shared, th: Thread): Effect {
    var k := g.kernel(Machine(th.regs, sh.memory));
    Effect(sh.(memory := k.after.memory),
           th.(phase := if k.exit then Finished else Ready, regs := k.after.regs),
           if k.spawn.Some? then [Thread(Ready, th.pc, k.spawn.value, None, 0)] else [])
  }

  function Step(g: Guest, chaining: bool, s: State, t: nat): State {
    if t >= |s.threads| then s else
    var e := LocalStep(g, chaining, s.shared, t, s.threads[t]);
    State(e.shared, s.threads[t := e.own] + e.spawned)
  }

  // ---------------------------------------------------------------------------------------------
  // Runs and what the guest sees of them
  // ---------------------------------------------------------------------------------------------

  function Run(g: Guest, chaining: bool, s: State, schedule: seq<nat>): State
    decreases |schedule|
  {
    if schedule == [] then s
    else Run(g, chaining, Step(g, chaining, s, schedule[0]), schedule[1..])
  }

  /** The steps the guest can observe: native micro-operations, block exits and system calls. */
  predicate Observable(p: Phase) {
    p.Running? || p.Serving?
  }

  predicate Visible(s: State, t: nat) {
    t < |s.threads| && Observable(s.threads[t].phase)
  }

  function ViewMode(blocks: seq<Translation>, phase: Phase, pc: Pc): GuestMode {
    match phase
    case Running(a, pos) => At(if a < |blocks| then blocks[a].origin else 0, pos)
    case Leaving(slot) =>
      At(if SlotExists(blocks, slot) then SlotTarget(blocks[slot.block].exit, slot.arm) else 0, 0)
    case Serving => InKernel(pc)
    case Finished => Stopped
    case _ => At(pc, 0)
  }

  function ViewThread(blocks: seq<Translation>, th: Thread): GuestThread {
    GuestThread(ViewMode(blocks, th.phase, th.pc), th.regs, th.depth)
  }

  function ViewThreads(blocks: seq<Translation>, threads: seq<Thread>): seq<GuestThread> {
    seq(|threads|, i requires 0 <= i < |threads| => ViewThread(blocks, threads[i]))
  }

  /** The guest state a protocol state stands for. */
  function View(s: State): GuestState {
    GuestState(ViewThreads(s.shared.blocks, s.threads), s.shared.memory)
  }

  /** Everything the guest sees along a run: after each observable step, who took it and the whole guest state. */
  function Trace(g: Guest, chaining: bool, s: State, schedule: seq<nat>): seq<(nat, GuestState)>
    decreases |schedule|
  {
    if schedule == [] then []
    else
      var s' := Step(g, chaining, s, schedule[0]);
      (if Visible(s, schedule[0]) then [(schedule[0], View(s'))] else []) + Trace(g, chaining, s', schedule[1..])
  }

  /** A freshly created context: nothing translated, every thread in the dispatcher loop. */
  function Init(threads: seq<(Pc, Regs)>, memory: Memory): State {
    State(Shared(map[], [], map[], None, memory),
          seq(|threads|, i requires 0 <= i < |threads| => Thread(Ready, threads[i].0, threads[i].1, None, 0)))
  }

  // ---------------------------------------------------------------------------------------------
  // The invariant
  // ---------------------------------------------------------------------------------------------

  /** Every cached address is the translation of its PC, and every translation is cached under its origin. */
  ghost predicate CacheOk(g: Guest, cache: map<Pc, Addr>, blocks: seq<Translation>) {
    && (forall pc :: pc in cache ==> cache[pc] < |blocks| && blocks[cache[pc]].origin == pc)
    && (forall a :: 0 <= a < |blocks| ==>
          && blocks[a].origin in cache && cache[blocks[a].origin] == a
          && g.code(blocks[a].origin).Some?
          && blocks[a] == Translate(blocks[a].origin, g.code(blocks[a].origin).value))
  }

  /** A patched slot is a chainable exit and jumps to the cached translation of the constant PC it would store. */
  ghost predicate PatchesOk(cache: map<Pc, Addr>, blocks: seq<Translation>, patched: map<Slot, Addr>) {
    forall slot :: slot in patched ==> PatchOk(cache, blocks, slot, patched[slot])
  }

  predicate PatchOk(cache: map<Pc, Addr>, blocks: seq<Translation>, slot: Slot, target: Addr) {
    && SlotExists(blocks, slot)
    && SlotTarget(blocks[slot.block].exit, slot.arm) in cache
    && target == cache[SlotTarget(blocks[slot.block].exit, slot.arm)]
  }

  ghost predicate TablesOk(g: Guest, sh: Shared) {
    CacheOk(g, sh.cache, sh.blocks) && PatchesOk(sh.cache, sh.blocks, sh.patched)
  }

  predicate HoldsLock(p: Phase) {
    p.Locked? || p.Resolved? || p.Linked? || p.Failed?
  }

  /** Between a return from native code and the patch, a recorded exit is a slot whose constant is the stored PC. */
  predicate ThreadOk(blocks: seq<Translation>, th: Thread) {
    && (th.chain.Some? && (th.phase.Ready? || th.phase.Locked? || th.phase.Resolved?) ==>
          SlotExists(blocks, th.chain.value) &&
          SlotTarget(blocks[th.chain.value.block].exit, th.chain.value.arm) == th.pc)
    && (th.phase.Serving? ==> th.chain.None?)
    && (th.phase.Resolved? || th.phase.Linked? ==>
          th.phase.block < |blocks| && blocks[th.phase.block].origin == th.pc)
    && (th.phase.Running? ==> th.phase.block < |blocks|)
    && (th.phase.Leaving? ==> SlotExists(blocks, th.phase.slot))
  }

  /** At most one thread is inside the locked region: the one the lock names. */
  predicate LockOk(lock: Option<nat>, threads: seq<Thread>) {
    && (lock.Some? ==> lock.value < |threads|)
    && (forall t :: 0 <= t < |threads| ==> (HoldsLock(threads[t].phase) <==> lock == Some(t)))
  }

  ghost predicate Inv(g: Guest, s: State) {
    && TablesOk(g, s.shared)
    && LockOk(s.shared.lock, s.threads)
    && (forall t :: 0 <= t < |s.threads| ==> ThreadOk(s.shared.blocks, s.threads[t]))
  }

  /** Nothing has been translated yet; to the guest, every thread is at the start of its block, outside any call. */
  lemma InitOk(g: Guest, threads: seq<(Pc, Regs)>, memory: Memory)
    ensures Inv(g, Init(threads, memory))
    ensures Init(threads, memory).shared == Shared(map[], [], map[], None, memory)
    ensures var v := View(Init(threads, memory));
            && v.memory == memory && |v.threads| == |threads|
            && forall t :: 0 <= t < |threads| ==> v.threads[t] == GuestThread(At(threads[t].0, 0), threads[t].1, 0)
  {
  }

  /** A thread that is in order stays so, and looks the same to the guest, when translations are added. */
  lemma ThreadOkGrows(blocks: seq<Translation>, blocks': seq<Translation>, th: Thread)
    requires ThreadOk(blocks, th) && blocks <= blocks'
    ensures ThreadOk(blocks', th) && ViewThread(blocks', th) == ViewThread(blocks, th)
  {
  }

  /** Translating a missing block keeps the tables in order. */
  lemma AddBlockOk(g: Guest, sh: Shared, pc: Pc)
    requires TablesOk(g, sh) && pc !in sh.cache && g.code(pc).Some?
    ensures TablesOk(g, sh.(cache := sh.cache[pc := |sh.blocks|],
                            blocks := sh.blocks + [Translate(pc, g.code(pc).value)]))
  {
    var blocks := sh.blocks + [Translate(pc, g.code(pc).value)];
    var cache := sh.cache[pc := |sh.blocks|];
    forall slot | slot in sh.patched ensures PatchOk(cache, blocks, slot, sh.patched[slot]) {
      assert PatchOk(sh.cache, sh.blocks, slot, sh.patched[slot]);
    }
  }

  /** Resolving a PC keeps the tables in order and ends with its translation; it fails exactly when the PC is neither
      cached nor code, and then nothing has changed. */
  lemma ResolveOk(g: Guest, sh: Shared, th: Thread)
    requires TablesOk(g, sh) && ThreadOk(sh.blocks, th) && th.phase.Locked?
    ensures var e := Resolve(g, sh, th);
            && sh.blocks <= e.shared.blocks && TablesOk(g, e.shared) && ThreadOk(e.shared.blocks, e.own)
            && (e.own.phase.Failed? <==> th.pc !in sh.cache && g.code(th.pc).None?)
            && (e.own.phase.Failed? ==> e.shared == sh && e.own == th.(phase := Failed))
            && (!e.own.phase.Failed? ==> e.own.phase.Resolved? && e.shared.blocks[e.own.phase.block].origin == th.pc)
  {
    if th.pc !in sh.cache && g.code(th.pc).Some? { AddBlockOk(g, sh, th.pc); }
  }

  /** With chaining, patching redirects the recorded slot, if there is one, to the cached translation of the very PC
      that slot stored, and changes nothing else; without, it changes nothing. */
  lemma LinkOk(g: Guest, chaining: bool, sh: Shared, th: Thread)
    requires TablesOk(g, sh) && ThreadOk(sh.blocks, th) && th.phase.Resolved?
    ensures TablesOk(g, Link(chaining, sh, th.chain, th.phase.block))
    ensures th.pc in sh.cache
    ensures Link(chaining, sh, th.chain, th.phase.block) ==
      if chaining && th.chain.Some? then sh.(patched := sh.patched[th.chain.value := sh.cache[th.pc]]) else sh
  {
    if chaining && th.chain.Some? { assert PatchOk(sh.cache, sh.blocks, th.chain.value, th.phase.block); }
  }

  /** A step keeps the tables and the stepping thread in order, adds translations only at the end, and creates
      only threads that are in the dispatcher loop with no exit recorded. */
  lemma LocalStepOk(g: Guest, chaining: bool, sh: Shared, t: nat, th: Thread)
    requires TablesOk(g, sh) && ThreadOk(sh.blocks, th)
    ensures var e := LocalStep(g, chaining, sh, t, th);
            && sh.blocks <= e.shared.blocks
            && TablesOk(g, e.shared)
            && ThreadOk(e.shared.blocks, e.own)
            && forall i :: 0 <= i < |e.spawned| ==> e.spawned[i].phase.Ready? && e.spawned[i].chain.None?
  {
    match th.phase
    case Locked => ResolveOk(g, sh, th);
    case Resolved(_) => LinkOk(g, chaining, sh, th);
    case Running(_, _) => ExecuteOk(g, sh, th);
    case Serving =>
    case _ =>
  }

  /** Native code leaves a thread at a valid place: a patched slot leads to an existing block. */
  lemma ExecuteOk(g: Guest, sh: Shared, th: Thread)
    requires TablesOk(g, sh) && th.phase.Running? && th.phase.block < |sh.blocks|
    ensures ThreadOk(sh.blocks, Execute(sh, th, th.phase.block, th.phase.pos).own)
  {
    var a := th.phase.block;
    assert Slot(a, true) in sh.patched ==> PatchOk(sh.cache, sh.blocks, Slot(a, true), sh.patched[Slot(a, true)]);
    assert Slot(a, false) in sh.patched ==> PatchOk(sh.cache, sh.blocks, Slot(a, false), sh.patched[Slot(a, false)]);
  }

  /** The lock is taken only when free and released only by its holder. */
  lemma LocalStepLock(g: Guest, chaining: bool, sh: Shared, t: nat, th: Thread)
    requires HoldsLock(th.phase) <==> sh.lock == Some(t)
    ensures var e := LocalStep(g, chaining, sh, t, th);
            && (HoldsLock(e.own.phase) <==> e.shared.lock == Some(t))
            && (e.shared.lock == sh.lock || (sh.lock.None? && e.shared.lock == Some(t))
                || (sh.lock == Some(t) && e.shared.lock.None?))
  {
  }

  /** Every step of every thread keeps the invariant. */
  lemma StepKeepsInv(g: Guest, chaining: bool, s: State, t: nat)
    requires Inv(g, s)
    ensures Inv(g, Step(g, chaining, s, t))
  {
    if t < |s.threads| {
      LocalStepOk(g, chaining, s.shared, t, s.threads[t]);
      LocalStepLock(g, chaining, s.shared, t, s.threads[t]);
      var s' := Step(g, chaining, s, t);
      forall u | 0 <= u < |s'.threads| ensures ThreadOk(s'.shared.blocks, s'.threads[u]) {
        if u < |s.threads| && u != t { ThreadOkGrows(s.shared.blocks, s'.shared.blocks, s.threads[u]); }
      }
    }
  }

  /** A thread whose translation threw holds the lock for good: on every schedule it stays where it is, and no thread
      ever enters the locked region again. */
  lemma {:induction false} FailureIsForever(g: Guest, chaining: bool, s: State, t: nat, schedule: seq<nat>)
    requires Inv(g, s) && t < |s.threads| && s.threads[t].phase.Failed?
    ensures var s' := Run(g, chaining, s, schedule);
            && t < |s'.threads| && s'.threads[t] == s.threads[t] && s'.shared.lock == Some(t)
            && forall u :: 0 <= u < |s'.threads| && u != t ==> !HoldsLock(s'.threads[u].phase)
    decreases |schedule|
  {
    if schedule != [] {
      var u := schedule[0];
      StepKeepsInv(g, chaining, s, u);
      if u < |s.threads| { LocalStepLock(g, chaining, s.shared, u, s.threads[u]); }
      assert Step(g, chaining, s, u).threads[t] == s.threads[t];
      FailureIsForever(g, chaining, Step(g, chaining, s, u), t, schedule[1..]);
    }
  }

  // ---------------------------------------------------------------------------------------------
  // Refinement: what a step means to the guest
  // ---------------------------------------------------------------------------------------------

  /** Exit selection is faithful: a chainable exit goes where the guest's own terminator goes, and any other exit
      returns the code that makes the dispatcher loop do what the terminator does. */
  lemma ExitIsTermination(b: GuestBlock, blocks: seq<Translation>, th: Thread, memory: Memory, pc: Pc, pos: nat)
    requires th.phase.Running?
    ensures var v := GuestThread(At(pc, pos), th.regs, th.depth);
            match SelectExit(b.end)
            case One(target) => Terminate(b.end, v, memory) == v.(mode := At(target, 0))
            case Two(c, t, f) => Terminate(b.end, v, memory) ==
                v.(mode := At(if c(Machine(th.regs, memory)) then t else f, 0))
            case Leave(code, w) =>
              var pc' := if w.Some? then EvalPc(w.value, Machine(th.regs, memory)) else th.pc;
              Terminate(b.end, v, memory) == ViewThread(blocks, Return(th.(pc := pc', chain := None), code))
  {
    if SelectExit(b.end).Two? {
      var m, v := Machine(th.regs, memory), b.end.value;
      assert EvalPc(v.whenTrue, m) == v.whenTrue.pc && EvalPc(v.whenFalse, m) == v.whenFalse.pc;
    }
  }

  /** Reaching a slot takes the guest to the slot's constant PC, whether or not the slot has been patched. */
  lemma CrossView(g: Guest, sh: Shared, th: Thread, slot: Slot)
    requires TablesOk(g, sh) && SlotExists(sh.blocks, slot)
    ensures var own := ViewThread(sh.blocks, Cross(sh.patched, th, slot));
            own == GuestThread(At(SlotTarget(sh.blocks[slot.block].exit, slot.arm), 0), th.regs, th.depth)
  {
    assert slot in sh.patched ==> PatchOk(sh.cache, sh.blocks, slot, sh.patched[slot]);
  }

  /** Native code: a micro-operation, or leaving the block by a patched or an unpatched exit. */
  lemma ExecuteView(g: Guest, sh: Shared, th: Thread, s: GuestState, t: nat)
    requires TablesOk(g, sh) && th.phase.Running? && th.phase.block < |sh.blocks|
    requires t < |s.threads| && s.threads[t] == ViewThread(sh.blocks, th) && s.memory == sh.memory
    ensures var e := Execute(sh, th, th.phase.block, th.phase.pos);
            e.shared.blocks == sh.blocks && e.spawned == [] &&
            GuestStep(g, s, t) == Some(GuestState(s.threads[t := ViewThread(sh.blocks, e.own)], e.shared.memory))
  {
    var a, pos := th.phase.block, th.phase.pos;
    var b := sh.blocks[a];
    var block := g.code(b.origin).value;
    assert b == Translate(b.origin, block);
    if pos >= |b.body| {
      ExitIsTermination(block, sh.blocks, th, sh.memory, b.origin, pos);
      var m := Machine(th.regs, sh.memory);
      match b.exit
      case One(_) => CrossView(g, sh, th, Slot(a, true));
      case Two(c, _, _) => CrossView(g, sh, th, Slot(a, c(m)));
      case Leave(_, _) =>
    }
  }

  /** Outside native code and the kernel a step is invisible. */
  lemma SilentView(g: Guest, chaining: bool, sh: Shared, t: nat, th: Thread)
    requires ThreadOk(sh.blocks, th) && !Observable(th.phase)
    ensures var e := LocalStep(g, chaining, sh, t, th);
            ViewThread(e.shared.blocks, e.own) == ViewThread(sh.blocks, th) && e.spawned == [] &&
                e.shared.memory == sh.memory
  {
  }

  /** The guest's view after a step: t's entry replaced, new threads added, everyone else as before. */
  lemma StepView(g: Guest, chaining: bool, s: State, t: nat)
    requires Inv(g, s) && t < |s.threads|
    ensures var e := LocalStep(g, chaining, s.shared, t, s.threads[t]);
            View(Step(g, chaining, s, t)) == GuestState(
              View(s).threads[t := ViewThread(e.shared.blocks, e.own)] + ViewThreads(e.shared.blocks, e.spawned),
              e.shared.memory)
  {
    var s' := Step(g, chaining, s, t);
    var e := LocalStep(g, chaining, s.shared, t, s.threads[t]);
    LocalStepOk(g, chaining, s.shared, t, s.threads[t]);
    forall u | 0 <= u < |s.threads| && u != t
      ensures ViewThread(s'.shared.blocks, s.threads[u]) == ViewThread(s.shared.blocks, s.threads[u])
    {
      ThreadOkGrows(s.shared.blocks, s'.shared.blocks, s.threads[u]);
    }
    assert View(s').threads ==
      View(s).threads[t := ViewThread(e.shared.blocks, e.own)] + ViewThreads(e.shared.blocks, e.spawned);
  }

  /** An observable step is exactly the guest's own next step; any other step is invisible to the guest. */
  lemma StepRefinesGuest(g: Guest, chaining: bool, s: State, t: nat)
    requires Inv(g, s)
    ensures var s' := Step(g, chaining, s, t);
            if Visible(s, t) then GuestStep(g, View(s), t) == Some(View(s')) else View(s') == View(s)
  {
    if t < |s.threads| {
      var th, v := s.threads[t], View(s);
      var e := LocalStep(g, chaining, s.shared, t, th);
      StepView(g, chaining, s, t);
      var own := ViewThread(e.shared.blocks, e.own);
      if th.phase.Running? {
        ExecuteView(g, s.shared, th, v, t);
        assert v.threads[t := own] + ViewThreads(e.shared.blocks, []) == v.threads[t := own];
      } else if !Visible(s, t) {
        SilentView(g, chaining, s.shared, t, th);
        assert v.threads[t := own] + ViewThreads(e.shared.blocks, []) == v.threads;
      } else {
        var k := g.kernel(Machine(th.regs, s.shared.memory));
        assert ViewThreads(e.shared.blocks, e.spawned) ==
          if k.spawn.Some? then [GuestThread(At(th.pc, 0), k.spawn.value, 0)] else [];
      }
    }
  }

  // ---------------------------------------------------------------------------------------------
  // Whole runs
  // ---------------------------------------------------------------------------------------------

  /** The schedule of the observable steps of a run. */
  function Observed(g: Guest, chaining: bool, s: State, schedule: seq<nat>): seq<nat>
    decreases |schedule|
  {
    if schedule == [] then []
    else (if Visible(s, schedule[0]) then [schedule[0]] else []) +
         Observed(g, chaining, Step(g, chaining, s, schedule[0]), schedule[1..])
  }

  lemma {:induction false} RunKeepsInv(g: Guest, chaining: bool, s: State, schedule: seq<nat>)
    requires Inv(g, s)
    ensures Inv(g, Run(g, chaining, s, schedule))
    decreases |schedule|
  {
    if schedule != [] {
      StepKeepsInv(g, chaining, s, schedule[0]);
      RunKeepsInv(g, chaining, Step(g, chaining, s, schedule[0]), schedule[1..]);
    }
  }

  /** Every run, chained or not, is a run of the guest: what is seen along it is what the guest program does on
      its own when its threads take the observed steps in that order. */
  lemma {:induction false} RunRefinesGuest(g: Guest, chaining: bool, s: State, schedule: seq<nat>)
    requires Inv(g, s)
    ensures Trace(g, chaining, s, schedule) == GuestTrace(g, View(s), Observed(g, chaining, s, schedule))
    decreases |schedule|
  {
    if schedule != [] {
      var t := schedule[0];
      var s' := Step(g, chaining, s, t);
      StepKeepsInv(g, chaining, s, t);
      StepRefinesGuest(g, chaining, s, t);
      RunRefinesGuest(g, chaining, s', schedule[1..]);
      if Visible(s, t) {
        var rest := Observed(g, chaining, s', schedule[1..]);
        assert ([t] + rest)[1..] == rest;
      } else {
        assert [] + Trace(g, chaining, s', schedule[1..]) == Trace(g, chaining, s', schedule[1..]);
        assert [] + Observed(g, chaining, s', schedule[1..]) == Observed(g, chaining, s', schedule[1..]);
      }
    }
  }

  /** Nobody is inside the locked region or on the way out of a block. */
  predicate Quiet(s: State) {
    s.shared.lock.None? && forall t :: 0 <= t < |s.threads| ==> !s.threads[t].phase.Leaving?
  }

  lemma {:induction false} RunsAppend(g: Guest, chaining: bool, s: State, a: seq<nat>, b: seq<nat>)
    ensures Run(g, chaining, s, a + b) == Run(g, chaining, Run(g, chaining, s, a), b)
    decreases |a|
  {
    if a == [] {
      assert a + b == b;
    } else {
      RunsAppend(g, chaining, Step(g, chaining, s, a[0]), a[1..], b);
      assert (a + b)[1..] == a[1..] + b;
    }
  }

  lemma {:induction false} TracesAppend(g: Guest, chaining: bool, s: State, a: seq<nat>, b: seq<nat>)
    ensures Trace(g, chaining, s, a + b) == Trace(g, chaining, s, a) + Trace(g, chaining, Run(g, chaining, s, a), b)
    decreases |a|
  {
    if a == [] {
      assert a + b == b;
    } else {
      var s' := Step(g, chaining, s, a[0]);
      TracesAppend(g, chaining, s', a[1..], b);
      TraceHead(g, chaining, s, a);
      TraceHead(g, chaining, s, a + b);
      assert (a + b)[1..] == a[1..] + b;
      Associate(Seen(g, chaining, s, a[0]), Trace(g, chaining, s', a[1..]),
                Trace(g, chaining, Run(g, chaining, s, a), b));
    }
  }

  /** What one step shows of itself. */
  function Seen(g: Guest, chaining: bool, s: State, t: nat): seq<(nat, GuestState)> {
    if Visible(s, t) then [(t, View(Step(g, chaining, s, t)))] else []
  }

  lemma TraceHead(g: Guest, chaining: bool, s: State, steps: seq<nat>)
    requires steps != []
    ensures Trace(g, chaining, s, steps) ==
                Seen(g, chaining, s, steps[0]) + Trace(g, chaining, Step(g, chaining, s, steps[0]), steps[1..])
  {
  }

  lemma Associate<T>(a: seq<T>, b: seq<T>, c: seq<T>)
    ensures a + (b + c) == (a + b) + c
  {
  }

  lemma RunAppend(g: Guest, chaining: bool, s: State, a: seq<nat>, b: seq<nat>)
    ensures Run(g, chaining, s, a + b) == Run(g, chaining, Run(g, chaining, s, a), b)
    ensures Trace(g, chaining, s, a + b) == Trace(g, chaining, s, a) + Trace(g, chaining, Run(g, chaining, s, a), b)
  {
    RunsAppend(g, chaining, s, a, b);
    TracesAppend(g, chaining, s, a, b);
  }

  lemma RunCons(g: Guest, chaining: bool, s: State, t: nat, rest: seq<nat>)
    ensures var s' := Step(g, chaining, s, t);
            && Run(g, chaining, s, [t] + rest) == Run(g, chaining, s', rest)
            && Trace(g, chaining, s, [t] + rest) ==
                 (if Visible(s, t) then [(t, View(s'))] else []) + Trace(g, chaining, s', rest)
  {
    assert ([t] + rest)[1..] == rest;
  }

  lemma FourSteps(g: Guest, chaining: bool, s: State, t: nat)
    ensures var s2 := Step(g, chaining, Step(g, chaining, s, t), t);
            && Run(g, chaining, s, [t, t]) == s2
            && Run(g, chaining, s, [t, t, t, t]) == Step(g, chaining, Step(g, chaining, s2, t), t)
  {
    var s1 := Step(g, chaining, s, t);
    var s2 := Step(g, chaining, s1, t);
    RunCons(g, chaining, s, t, [t]);
    RunCons(g, chaining, s1, t, []);
    RunCons(g, chaining, s, t, [t, t, t]);
    RunCons(g, chaining, s1, t, [t, t]);
    RunCons(g, chaining, s2, t, [t]);
    RunCons(g, chaining, Step(g, chaining, s2, t), t, []);
  }

  /** How far thread t is from native code: the steps of the locked region it has yet to take. */
  function Distance(p: Phase): nat {
    match p
    case Ready => 4
    case Locked => 3
    case Resolved(_) => 2
    case Linked(_) => 1
    case _ => 0
  }

  /** Alone, a thread that can get the lock and whose PC can be translated comes one step closer. */
  lemma Approach(g: Guest, chaining: bool, s: State, t: nat)
    requires Inv(g, s) && t < |s.threads| && Distance(s.threads[t].phase) > 0
    requires s.threads[t].phase.Ready? ==> s.shared.lock.None?
    requires s.threads[t].phase.Ready? || s.threads[t].phase.Locked? ==> g.code(s.threads[t].pc).Some?
    ensures var s' := Step(g, chaining, s, t);
            && |s'.threads| == |s.threads|
            && Distance(s'.threads[t].phase) == Distance(s.threads[t].phase) - 1
            && s'.threads[t].pc == s.threads[t].pc
            && (s'.threads[t].phase.Running? || Distance(s'.threads[t].phase) > 0)
            && !s'.threads[t].phase.Ready?
            && (s'.threads[t].phase.Running? ==> s'.shared.lock.None?)
            && forall u :: 0 <= u < |s.threads| && u != t ==> s'.threads[u] == s.threads[u]
  {
  }

  /** From the dispatcher loop with the lock free, t alone reaches native code, unseen by the guest. */
  lemma {:induction false} EnterNative(g: Guest, chaining: bool, s: State, t: nat) returns (enter: seq<nat>)
    requires Inv(g, s) && t < |s.threads| && Distance(s.threads[t].phase) > 0
    requires s.threads[t].phase.Ready? ==> s.shared.lock.None?
    requires s.threads[t].phase.Ready? || s.threads[t].phase.Locked? ==> g.code(s.threads[t].pc).Some?
    ensures var s' := Run(g, chaining, s, enter);
            && Trace(g, chaining, s, enter) == [] && View(s') == View(s) && Inv(g, s')
            && |s'.threads| == |s.threads| && s'.threads[t].phase.Running? && s'.shared.lock.None?
            && forall u :: 0 <= u < |s.threads| && u != t ==> s'.threads[u] == s.threads[u]
    decreases Distance(s.threads[t].phase)
  {
    var s' := Step(g, chaining, s, t);
    Approach(g, chaining, s, t);
    StepRefinesGuest(g, chaining, s, t);
    StepKeepsInv(g, chaining, s, t);
    if s'.threads[t].phase.Running? {
      enter := [t];
      RunCons(g, chaining, s, t, []);
      assert [t] + [] == [t];
    } else {
      var rest := EnterNative(g, chaining, s', t);
      enter := [t] + rest;
      RunCons(g, chaining, s, t, rest);
    }
  }

  /** Leaving a block by an unpatched exit is completed by one more, unseen, step. */
  lemma FinishLeaving(g: Guest, chaining: bool, s: State, t: nat)
    requires Inv(g, s) && t < |s.threads| && s.threads[t].phase.Leaving? && s.shared.lock.None?
    requires forall u :: 0 <= u < |s.threads| && u != t ==> !s.threads[u].phase.Leaving?
    ensures Quiet(Step(g, chaining, s, t))
  {
    assert ThreadOk(s.shared.blocks, s.threads[t]);
  }

  /** The lock is not touched by an observable step, and other threads stay where they are. */
  lemma ObservableKeepsLock(g: Guest, chaining: bool, s: State, t: nat)
    requires Visible(s, t)
    ensures var s' := Step(g, chaining, s, t);
            && s'.shared.lock == s.shared.lock && |s.threads| <= |s'.threads|
            && (forall u :: 0 <= u < |s.threads| && u != t ==> s'.threads[u] == s.threads[u])
            && (forall u :: |s.threads| <= u < |s'.threads| ==> s'.threads[u].phase.Ready?)
  {
  }

  /** The observable step itself, and the unseen one that may have to follow it. */
  lemma Observe(g: Guest, chaining: bool, s: State, t: nat) returns (steps: seq<nat>)
    requires Inv(g, s) && Quiet(s) && Visible(s, t)
    ensures var s' := Run(g, chaining, s, steps);
            && Inv(g, s') && Quiet(s') && GuestStep(g, View(s), t) == Some(View(s'))
            && Trace(g, chaining, s, steps) == [(t, View(s'))]
  {
    var s' := Step(g, chaining, s, t);
    StepRefinesGuest(g, chaining, s, t);
    StepKeepsInv(g, chaining, s, t);
    ObservableKeepsLock(g, chaining, s, t);
    var finish := [];
    if s'.threads[t].phase.Leaving? {
      FinishLeaving(g, chaining, s', t);
      StepRefinesGuest(g, chaining, s', t);
      StepKeepsInv(g, chaining, s', t);
      finish := [t] + [];
      RunCons(g, chaining, s', t, []);
    }
    RunCons(g, chaining, s, t, finish);
    steps := [t] + finish;
  }

  /** Any guest step can be performed from a quiet state, with t scheduled alone, ending in a quiet state:
      neither dispatcher can get in the way of the guest. */
  lemma Realise(g: Guest, chaining: bool, s: State, t: nat) returns (steps: seq<nat>)
    requires Inv(g, s) && Quiet(s) && GuestStep(g, View(s), t).Some?
    ensures var s' := Run(g, chaining, s, steps);
            && Inv(g, s') && Quiet(s') && GuestStep(g, View(s), t) == Some(View(s'))
            && Trace(g, chaining, s, steps) == [(t, View(s'))]
  {
    assert HoldsLock(s.threads[t].phase) <==> s.shared.lock == Some(t);
    var s1, enter := s, [];
    if s.threads[t].phase.Ready? {
      enter := EnterNative(g, chaining, s, t);
      s1 := Run(g, chaining, s, enter);
    }
    var rest := Observe(g, chaining, s1, t);
    steps := enter + rest;
    RunAppend(g, chaining, s, enter, rest);
  }

  /** Any run of the guest is a run of either dispatcher. */
  lemma {:induction false} RealiseAll(g: Guest, chaining: bool, s: State, schedule: seq<nat>) returns (steps: seq<nat>)
    requires Inv(g, s) && Quiet(s)
    ensures Trace(g, chaining, s, steps) == GuestTrace(g, View(s), schedule)
    decreases |schedule|
  {
    if schedule == [] {
      steps := [];
    } else if GuestStep(g, View(s), schedule[0]).None? {
      steps := RealiseAll(g, chaining, s, schedule[1..]);
    } else {
      var first := Realise(g, chaining, s, schedule[0]);
      var s' := Run(g, chaining, s, first);
      var rest := RealiseAll(g, chaining, s', schedule[1..]);
      steps := first + rest;
      RunAppend(g, chaining, s, first, rest);
    }
  }

  /** Chaining is transparent. However threads are interleaved, whatever the guest sees along a chained run - the
      blocks every thread goes through, its registers and call depth, and the shared memory after each step - is
      seen along some run of the plain dispatcher loop, and the other way round. */
  lemma ChainingIsTransparent(g: Guest, threads: seq<(Pc, Regs)>, memory: Memory, schedule: seq<nat>,
                             chaining: bool, other: bool)
    ensures var s := Init(threads, memory);
            exists schedule' :: Trace(g, other, s, schedule') == Trace(g, chaining, s, schedule)
  {
    var s := Init(threads, memory);
    InitOk(g, threads, memory);
    RunRefinesGuest(g, chaining, s, schedule);
    var schedule' := RealiseAll(g, other, s, Observed(g, chaining, s, schedule));
  }

  /** In every reachable state a patched slot belongs to a plain branch with a constant target, and jumps to the
      cached translation of exactly that constant; calls, returns, system calls and computed branches are never
      patched. */
  lemma PatchedExits(g: Guest, threads: seq<(Pc, Regs)>, memory: Memory, schedule: seq<nat>, slot: Slot)
    requires slot in Run(g, true, Init(threads, memory), schedule).shared.patched
    ensures var sh := Run(g, true, Init(threads, memory), schedule).shared;
            && slot.block < |sh.blocks| && g.code(sh.blocks[slot.block].origin).Some?
            && var end := g.code(sh.blocks[slot.block].origin).value.end;
            && end.WritePc? && end.kind.Branch?
            && var v := if !end.value.Select? then end.value
                        else if slot.arm then end.value.whenTrue else end.value.whenFalse;
            && v.Known? && v.pc in sh.cache && sh.patched[slot] == sh.cache[v.pc] && sh.cache[v.pc] < |sh.blocks|
            && sh.blocks[sh.patched[slot]].origin == v.pc
  {
    InitOk(g, threads, memory);
    RunKeepsInv(g, true, Init(threads, memory), schedule);
    var sh := Run(g, true, Init(threads, memory), schedule).shared;
    assert PatchOk(sh.cache, sh.blocks, slot, sh.patched[slot]);
  }

  /** Two threads are never in the locked region at once. */
  lemma MutualExclusion(g: Guest, chaining: bool, threads: seq<(Pc, Regs)>, memory: Memory, schedule: seq<nat>,
                        t: nat, u: nat)
    requires var s := Run(g, chaining, Init(threads, memory), schedule);
             t < |s.threads| && u < |s.threads| && HoldsLock(s.threads[t].phase) && HoldsLock(s.threads[u].phase)
    ensures t == u
  {
    InitOk(g, threads, memory);
    RunKeepsInv(g, chaining, Init(threads, memory), schedule);
  }
}
