/** What chaining does: which exits get patched, when, and what a patched exit saves. */
module Chaining {
  import opened Wrappers
  import opened GuestProgram
  import opened Dispatch

  /** Thread t has come to the end of a block that ends in a plain branch to a constant, or in one that selects between
      two; slot is the exit it takes and pc the constant that belongs to it. */
  ghost predicate AtExit(g: Guest, s: State, t: nat, slot: Slot, pc: Pc) {
    t < |s.threads| &&
    var th := s.threads[t];
    th.phase.Running? && th.phase.block == slot.block < |s.shared.blocks| &&
    var code := g.code(s.shared.blocks[slot.block].origin);
    code.Some? && th.phase.pos >= |code.value.body| && code.value.end.WritePc? && code.value.end.kind.Branch? &&
    var v := code.value.end.value;
    || (v.Known? && slot.arm && pc == v.pc)
    || (v.Select? && v.whenTrue.Known? && v.whenFalse.Known?
        && slot.arm == v.cond(Machine(th.regs, s.shared.memory))
        && pc == if slot.arm then v.whenTrue.pc else v.whenFalse.pc)
  }

  /** From the dispatcher loop with the lock free, a thread whose PC is cached or can be decoded is in the translation
      of its PC after four steps, with the lock free again. With chaining, the exit it recorded now leads to that
      translation; no other exit is touched, and without a recorded exit, or without chaining, none is. */
  lemma EnteringPatches(g: Guest, chaining: bool, s: State, t: nat)
    requires t < |s.threads| && s.threads[t].phase.Ready? && s.shared.lock.None?
    requires s.threads[t].pc in s.shared.cache || g.code(s.threads[t].pc).Some?
    ensures var th, sh, s' := s.threads[t], s.shared, Run(g, chaining, s, [t, t, t, t]);
            && th.pc in s'.shared.cache
            && s'.threads == s.threads[t := th.(phase := Running(s'.shared.cache[th.pc], 0))]
            && s'.shared.lock.None? && s'.shared.memory == sh.memory
            && (th.pc in sh.cache ==> s'.shared.cache == sh.cache && s'.shared.blocks == sh.blocks)
            && (th.pc !in sh.cache ==>
                  && s'.shared.cache == sh.cache[th.pc := |sh.blocks|]
                  && s'.shared.blocks == sh.blocks + [Translate(th.pc, g.code(th.pc).value)])
            && s'.shared.patched ==
                 if chaining && th.chain.Some? then sh.patched[th.chain.value := s'.shared.cache[th.pc]]
                 else sh.patched
  {
    FourSteps(g, chaining, s, t);
  }

  /** When the PC can be neither found nor translated, two steps leave the thread failed, with the lock. */
  lemma EnteringFails(g: Guest, chaining: bool, s: State, t: nat)
    requires t < |s.threads| && s.threads[t].phase.Ready? && s.shared.lock.None?
    requires s.threads[t].pc !in s.shared.cache && g.code(s.threads[t].pc).None?
    ensures Run(g, chaining, s, [t, t]) ==
      State(s.shared.(lock := Some(t)), s.threads[t := s.threads[t].(phase := Failed)])
  {
    FourSteps(g, chaining, s, t);
  }

  /** The slot a thread leaves by is a slot of its block, and the constant stored there is the guest's own target. */
  lemma ExitSlot(g: Guest, s: State, t: nat, slot: Slot, pc: Pc)
    requires Inv(g, s) && AtExit(g, s, t, slot, pc)
    ensures SlotExists(s.shared.blocks, slot) && SlotTarget(s.shared.blocks[slot.block].exit, slot.arm) == pc
  {
  }

  /** A patched exit is a jump: one step takes the thread into the translation it was patched to, with the lock, the
      translations and everybody else left alone. */
  lemma PatchedExitJumps(g: Guest, chaining: bool, s: State, t: nat, slot: Slot, pc: Pc)
    requires Inv(g, s) && AtExit(g, s, t, slot, pc) && slot in s.shared.patched
    ensures var s' := Step(g, chaining, s, t);
            && pc in s.shared.cache && s.shared.patched[slot] == s.shared.cache[pc]
            && s'.shared == s.shared
            && s'.threads == s.threads[t := s.threads[t].(phase := Running(s.shared.cache[pc], 0))]
  {
    assert PatchOk(s.shared.cache, s.shared.blocks, slot, s.shared.patched[slot]);
  }

  /** An exit that is not patched takes two steps back to the dispatcher loop, with its constant stored as the PC and
      the exit recorded. */
  lemma UnpatchedExitReturns(g: Guest, chaining: bool, s: State, t: nat, slot: Slot, pc: Pc)
    requires Inv(g, s) && AtExit(g, s, t, slot, pc) && slot !in s.shared.patched
    ensures var s' := Step(g, chaining, Step(g, chaining, s, t), t);
            && s'.shared == s.shared
            && s'.threads == s.threads[t := s.threads[t].(phase := Ready, pc := pc, chain := Some(slot))]
  {
    var s1 := Step(g, chaining, s, t);
    assert s1.shared == s.shared && s1.threads == s.threads[t := s.threads[t].(phase := Leaving(slot))];
  }

  /** No step takes a patch back or sends it elsewhere, and without chaining none makes one. */
  ghost predicate PatchesKept(chaining: bool, sh: Shared, sh': Shared) {
    && sh.blocks <= sh'.blocks
    && (forall slot :: slot in sh.patched ==> slot in sh'.patched && sh'.patched[slot] == sh.patched[slot])
    && (!chaining ==> sh'.patched == sh.patched)
  }

  lemma LinkKeepsPatches(g: Guest, chaining: bool, sh: Shared, th: Thread)
    requires TablesOk(g, sh) && ThreadOk(sh.blocks, th) && th.phase.Resolved?
    ensures PatchesKept(chaining, sh, Link(chaining, sh, th.chain, th.phase.block))
  {
    LinkOk(g, chaining, sh, th);
    if chaining && th.chain.Some? && th.chain.value in sh.patched {
      assert PatchOk(sh.cache, sh.blocks, th.chain.value, sh.patched[th.chain.value]);
    }
  }

  lemma OtherStepsPatchNothing(g: Guest, chaining: bool, sh: Shared, t: nat, th: Thread)
    requires !th.phase.Resolved?
    ensures var sh' := LocalStep(g, chaining, sh, t, th).shared;
            sh.blocks <= sh'.blocks && sh'.patched == sh.patched
  {
  }

  lemma StepKeepsPatches(g: Guest, chaining: bool, s: State, t: nat)
    requires Inv(g, s)
    ensures PatchesKept(chaining, s.shared, Step(g, chaining, s, t).shared)
  {
    if t < |s.threads| {
      if s.threads[t].phase.Resolved? {
        LinkKeepsPatches(g, chaining, s.shared, s.threads[t]);
      } else {
        OtherStepsPatchNothing(g, chaining, s.shared, t, s.threads[t]);
      }
    }
  }

  lemma {:induction false} RunKeepsPatches(g: Guest, chaining: bool, s: State, schedule: seq<nat>)
    requires Inv(g, s)
    ensures PatchesKept(chaining, s.shared, Run(g, chaining, s, schedule).shared)
    decreases |schedule|
  {
    if schedule != [] {
      StepKeepsInv(g, chaining, s, schedule[0]);
      StepKeepsPatches(g, chaining, s, schedule[0]);
      RunKeepsPatches(g, chaining, Step(g, chaining, s, schedule[0]), schedule[1..]);
    }
  }

  /** Leaving by an exit and going through the dispatcher to the block there patches the exit. */
  lemma LeavingPatches(g: Guest, s: State, t: nat, slot: Slot, pc: Pc)
    requires Inv(g, s) && AtExit(g, s, t, slot, pc) && s.shared.lock.None?
    requires pc in s.shared.cache || g.code(pc).Some?
    ensures var s' := Run(g, true, s, [t, t, t, t, t, t]);
            Inv(g, s') && PatchesKept(true, s.shared, s'.shared) && slot in s'.shared.patched
  {
    var enter := [t, t, t, t];
    assert [t, t, t, t, t, t] == [t, t] + enter;
    RunAppend(g, true, s, [t, t], enter);
    RunKeepsInv(g, true, s, [t, t, t, t, t, t]);
    RunKeepsPatches(g, true, s, [t, t, t, t, t, t]);
    if slot !in s.shared.patched {
      FourSteps(g, true, s, t);
      RunKeepsInv(g, true, s, [t, t]);
      UnpatchedExitReturns(g, true, s, t, slot, pc);
      EnteringPatches(g, true, Run(g, true, s, [t, t]), t);
    }
  }

  /** Once is enough. When a thread has left by an exit and gone through the dispatcher to the block there, every thread
      that takes this exit afterwards, on whatever schedule, is in that block after a single step that neither takes nor
      waits for the lock. */
  lemma OnceIsEnough(g: Guest, s: State, t: nat, slot: Slot, pc: Pc, later: seq<nat>, u: nat, pc': Pc)
    requires Inv(g, s) && AtExit(g, s, t, slot, pc) && s.shared.lock.None?
    requires pc in s.shared.cache || g.code(pc).Some?
    requires AtExit(g, Run(g, true, s, [t, t, t, t, t, t] + later), u, slot, pc')
    ensures var s' := Run(g, true, s, [t, t, t, t, t, t] + later);
            var s'' := Step(g, true, s', u);
            && pc in s'.shared.cache
            && s''.threads == s'.threads[u := s'.threads[u].(phase := Running(s'.shared.cache[pc], 0))]
            && s''.shared == s'.shared
  {
    var patch := [t, t, t, t, t, t];
    var s1 := Run(g, true, s, patch);
    LeavingPatches(g, s, t, slot, pc);
    RunAppend(g, true, s, patch, later);
    RunKeepsInv(g, true, s1, later);
    RunKeepsPatches(g, true, s1, later);
    var s' := Run(g, true, s1, later);
    ExitSlot(g, s, t, slot, pc);
    ExitSlot(g, s', u, slot, pc');
    PatchedExitJumps(g, true, s', u, slot, pc');
  }
}
