/** The objects that carry the dispatch protocol: the translation cache, and the execution context whose methods
    update threads, code and memory in place. Each method is proved to make exactly the protocol's own steps. */
module ExecutionContext {
  import opened Wrappers
  import opened GuestProgram
  import opened Dispatch
  import opened Chaining

  class TranslationCache {
    var translations: map<Pc, Addr>

    constructor ()
      ensures translations == map[]
    {
      translations := map[];
    }

    method Lookup(addr: Pc) returns (found: bool, obj: Addr)
      ensures found <==> addr in translations
      ensures found ==> obj == translations[addr]
    {
      if addr in translations {
        return true, translations[addr];
      }
      return false, 0;
    }

    method Insert(addr: Pc, obj: Addr)
      modifies this
      ensures translations == old(translations)[addr := obj]
    {
      translations := translations[addr := obj];
    }
  }

  class Context {
    const guest: Guest
    const chaining: bool
    const cache: TranslationCache
    var blocks: seq<Translation>
    var patched: map<Slot, Addr>
    var bigFatLock: Option<nat>
    var threads: seq<Thread>
    var memory: Memory

    constructor (guest: Guest, chaining: bool, memory: Memory)
      ensures this.guest == guest && this.chaining == chaining && fresh(cache)
      ensures Abstract() == Init([], memory)
    {
      this.guest, this.chaining, this.memory := guest, chaining, memory;
      cache := new TranslationCache();
      blocks, patched, bigFatLock, threads := [], map[], None, [];
    }

    /** The protocol state this object is in. */
    ghost function Abstract(): Dispatch.State
      reads this, cache
    {
      Dispatch.State(Shared(cache.translations, blocks, patched, bigFatLock, memory), threads)
    }

    method CreateExecutionThread(pc: Pc, regs: Regs) returns (t: nat)
      modifies this
      ensures t == |old(threads)|
      ensures Abstract() == old(Abstract()).(threads := old(threads) + [Thread(Ready, pc, regs, None, 0)])
    {
      t := |threads|;
      threads := threads + [Thread(Ready, pc, regs, None, 0)];
    }

    /** The cached translation of pc, made and inserted on a miss; None when the block cannot be translated. */
    method GetTranslation(pc: Pc) returns (t: Option<Addr>)
      modifies this, cache
      ensures threads == old(threads) && patched == old(patched) && bigFatLock == old(bigFatLock)
      ensures memory == old(memory)
      ensures pc in old(cache.translations) ==>
        t == Some(old(cache.translations[pc])) && Abstract() == old(Abstract())
      ensures pc !in old(cache.translations) && guest.code(pc).None? ==> t == None && Abstract() == old(Abstract())
      ensures pc !in old(cache.translations) && guest.code(pc).Some? ==>
        && t == Some(|old(blocks)|) && blocks == old(blocks) + [Translate(pc, guest.code(pc).value)]
        && cache.translations == old(cache.translations)[pc := |old(blocks)|]
    {
      var found, obj := cache.Lookup(pc);
      if found {
        return Some(obj);
      }
      var code := guest.code(pc);
      if code.None? {
        return None;
      }
      t := Some(|blocks|);
      blocks := blocks + [Translate(pc, code.value)];
      cache.Insert(pc, t.value);
    }

    /** Redirect an exit slot into a translation; a backend without chaining does nothing. */
    method Chain(slot: Slot, target: Addr)
      modifies this`patched
      ensures patched == if chaining then old(patched)[slot := target] else old(patched)
    {
      if chaining {
        patched := patched[slot := target];
      }
    }

    /** invoke up to the call into native code, for a thread that finds the lock free: four steps of the protocol,
        or two when translation fails, which leaves the lock taken. */
    method EnterInvoke(t: nat) returns (ok: bool)
      requires t < |threads| && threads[t].phase.Ready? && bigFatLock.None?
      modifies this, cache
      ensures ok <==> old(threads[t].pc in cache.translations) || guest.code(old(threads[t].pc)).Some?
      ensures ok ==> Abstract() == Run(guest, chaining, old(Abstract()), [t, t, t, t])
      ensures ok ==> bigFatLock.None? && |threads| == |old(threads)| && threads[t].phase.Running?
      ensures ok ==> old(threads[t]).pc in cache.translations
      ensures ok && chaining && old(threads[t].chain.Some?) ==>
        patched == old(patched)[old(threads[t].chain.value) := cache.translations[old(threads[t].pc)]]
      ensures !ok || !chaining || old(threads[t].chain.None?) ==> patched == old(patched)
      ensures !ok ==> Abstract() == Run(guest, chaining, old(Abstract()), [t, t]) && bigFatLock == Some(t)
    {
      ghost var s := Abstract();
      if threads[t].pc in cache.translations || guest.code(threads[t].pc).Some? {
        EnteringPatches(guest, chaining, s, t);
      } else {
        EnteringFails(guest, chaining, s, t);
      }
      bigFatLock := Some(t);
      threads := threads[t := threads[t].(phase := Locked)];
      var txln := GetTranslation(threads[t].pc);
      if txln.None? {
        threads := threads[t := threads[t].(phase := Failed)];
        return false;
      }
      threads := threads[t := threads[t].(phase := Resolved(txln.value))];
      if threads[t].chain.Some? {
        Chain(threads[t].chain.value, txln.value);
      }
      threads := threads[t := threads[t].(phase := Linked(txln.value))];
      bigFatLock := None;
      threads := threads[t := threads[t].(phase := Running(txln.value, 0))];
      assert threads == Run(guest, chaining, s, [t, t, t, t]).threads;
      return true;
    }

    /** One protocol step of thread t, in place. Exits are patched by a thread that has its translation and recorded
        the exit it came through, and by nobody else. */
    method Advance(t: nat)
      modifies this, cache
      ensures Abstract() == Step(guest, chaining, old(Abstract()), t)
      ensures patched ==
        if chaining && t < |old(threads)| && old(threads)[t].phase.Resolved? && old(threads)[t].chain.Some?
        then old(patched)[old(threads)[t].chain.value := old(threads)[t].phase.block]
        else old(patched)
    {
      if t >= |threads| {
        return;
      }
      var th := threads[t];
      match th.phase
      case Ready =>
        if bigFatLock.None? {
          bigFatLock := Some(t);
          threads := threads[t := th.(phase := Locked)];
        }
      case Locked =>
        var txln := GetTranslation(th.pc);
        threads := threads[t := th.(phase := if txln.Some? then Resolved(txln.value) else Failed)];
      case Resolved(a) =>
        if th.chain.Some? {
          Chain(th.chain.value, a);
        }
        threads := threads[t := th.(phase := Linked(a))];
      case Linked(a) =>
        bigFatLock := None;
        threads := threads[t := th.(phase := Running(a, 0))];
      case Running(a, pos) =>
        if a < |blocks| {
          Native(t, a, pos);
        }
      case Leaving(slot) =>
        if SlotExists(blocks, slot) {
          var pc := SlotTarget(blocks[slot.block].exit, slot.arm);
          threads := threads[t := th.(phase := Ready, pc := pc, chain := Some(slot))];
        }
      case Serving =>
        var k := guest.kernel(Machine(th.regs, memory));
        memory := k.after.memory;
        threads := threads[t := th.(phase := if k.exit then Finished else Ready, regs := k.after.regs)];
        if k.spawn.Some? {
          var _ := CreateExecutionThread(th.pc, k.spawn.value);
        }
      case Failed =>
      case Finished =>
    }

    method Native(t: nat, a: Addr, pos: nat)
      requires t < |threads| && a < |blocks|
      modifies this
      ensures var e := Execute(old(Abstract()).shared, old(threads[t]), a, pos);
              Abstract() == Dispatch.State(e.shared, old(threads)[t := e.own] + e.spawned)
    {
      var th, b := threads[t], blocks[a];
      var m := Machine(th.regs, memory);
      if pos < |b.body| {
        var m' := b.body[pos](m);
        memory := m'.memory;
        threads := threads[t := th.(phase := Running(a, pos + 1), regs := m'.regs)];
      } else {
        match b.exit
        case One(_) => threads := threads[t := Cross(patched, th, Slot(a, true))];
        case Two(c, _, _) => threads := threads[t := Cross(patched, th, Slot(a, c(m)))];
        case Leave(code, v) =>
          var pc := if v.Some? then EvalPc(v.value, m) else th.pc;
          threads := threads[t := Return(th.(pc := pc, chain := None), code)];
      }
    }
  }
}
