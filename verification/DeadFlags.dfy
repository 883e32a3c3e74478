/** Dead flag elimination: one backward pass over a chunk that drops flag writes nobody can see. */
module DeadFlags {
  import opened Ir

  // ---------------------------------------------------------------------------------------------
  // What the visitor does, as functions
  // ---------------------------------------------------------------------------------------------

  /** The traversal's memory: nodes reached through a port, and flag reads found in the current packet. */
  datatype Visit = Visit(seen: set<nat>, found: set<FlagReg>)

  /** visit_port: the owner of a port is accepted the first time it is reached. */
  function VisitPort(g: seq<Node>, first: nat, n: nat, v: Visit): Visit
    requires first <= n && Built(g, first, n + 1)
    decreases 2 * n + 1
  {
    if n in v.seen then v
    else
      assert NodeOk(g, first, n);
      var v' := v.(seen := v.seen + {n});
      match g[n]
      case ReadReg(Flag(f)) => v'.(found := v'.found + {f})
      case ReadReg(Other(_)) => v'
      case Arith(_, args) => VisitPorts(g, first, n, args, v')
      case Pure(_, args) => VisitPorts(g, first, n, args, v')
      case _ => v'
  }

  function VisitPorts(g: seq<Node>, first: nat, bound: nat, args: seq<Port>, v: Visit): Visit
    requires Built(g, first, bound)
    requires forall p :: p in args ==> first <= p.owner < bound
    decreases 2 * bound, |args|
  {
    if args == [] then v
    else VisitPorts(g, first, bound, args[1..], VisitPort(g, first, args[0].owner, v))
  }

  /** The visitor's state inside a packet: live flags, flags already written later in the chunk, writes to delete. */
  datatype Pass = Pass(visit: Visit, live: set<FlagReg>, last: set<FlagReg>, deleted: seq<nat>)

  /** visit_write_reg_node on a flag: the last write in the chunk is kept, an earlier one only when the flag is live. */
  function VisitFlagWrite(n: nat, f: FlagReg, s: Pass): Pass {
    if f !in s.last then s.(last := s.last + {f}, live := s.live - {f})
    else if f in s.live then s.(live := s.live - {f})
    else s.(deleted := s.deleted + [n])
  }

  /** accept on an action: a guarded node that a port already reached is skipped. */
  function VisitAction(g: seq<Node>, first: nat, n: nat, s: Pass): Pass
    requires first <= n && Built(g, first, n + 1)
  {
    if Guarded(g[n]) && n in s.visit.seen then s
    else
      assert NodeOk(g, first, n);
      var s' := if IsFlagWrite(g[n]) then VisitFlagWrite(n, g[n].reg.flag, s) else s;
      s'.(visit := VisitPorts(g, first, n, Operands(g[n]), s.visit))
  }

  /** The visitor's state after the actions with numbers id and up have been visited, last one first. */
  function VisitFrom(g: seq<Node>, p: Packet, id: nat, s: Pass): Pass
    requires p.first <= id && Built(g, p.first, p.end)
    decreases p.end - id
  {
    if id >= p.end then s
    else
      var s' := VisitFrom(g, p, id + 1, s);
      if id in p.actions then VisitAction(g, p.first, id, s') else s'
  }

  /** The visitor's state between packets. */
  datatype Between = Between(seen: set<nat>, live: set<FlagReg>, last: set<FlagReg>)

  ghost predicate Readable(g: seq<Node>, p: Packet) {
    p.first <= p.end && Built(g, p.first, p.end)
  }

  function VisitPacket(g: seq<Node>, p: Packet, b: Between): Pass
    requires Readable(g, p)
  {
    VisitFrom(g, p, p.first, Pass(Visit(b.seen, {}), b.live, b.last, []))
  }

  /** After a packet the reads found in it become live. */
  function AfterPacket(s: Pass): Between {
    Between(s.visit.seen, s.live + s.visit.found, s.last)
  }

  function Survivors(actions: seq<nat>, deleted: seq<nat>): (r: seq<nat>)
    ensures forall a :: a in r <==> a in actions && a !in deleted
  {
    if actions == [] then []
    else (if actions[0] in deleted then [] else [actions[0]]) + Survivors(actions[1..], deleted)
  }

  /** The packets are visited last to first; the state before packet i is the state after all later packets. */
  function VisitChunkFrom(g: seq<Node>, packets: seq<Packet>, i: nat): Between
    requires forall p :: p in packets ==> Readable(g, p)
    decreases |packets| - i
  {
    if i >= |packets| then Between({}, {}, {})
    else AfterPacket(VisitPacket(g, packets[i], VisitChunkFrom(g, packets, i + 1)))
  }

  function DeletedIn(g: seq<Node>, packets: seq<Packet>, i: nat): seq<nat>
    requires i < |packets| && forall p :: p in packets ==> Readable(g, p)
  {
    VisitPacket(g, packets[i], VisitChunkFrom(g, packets, i + 1)).deleted
  }

  function OptimisePacket(g: seq<Node>, packets: seq<Packet>, i: nat): Packet
    requires i < |packets| && forall p :: p in packets ==> Readable(g, p)
  {
    packets[i].(actions := Survivors(packets[i].actions, DeletedIn(g, packets, i)))
  }

  function OptimiseFrom(g: seq<Node>, packets: seq<Packet>, i: nat): (r: seq<Packet>)
    requires i <= |packets| && forall p :: p in packets ==> Readable(g, p)
    ensures |r| == |packets| - i && forall q :: q in r ==> q.end <= |g|
    decreases |packets| - i
  {
    if i == |packets| then [] else
    assert Readable(g, packets[i]);
    [OptimisePacket(g, packets, i)] + OptimiseFrom(g, packets, i + 1)
  }

  /** The chunk after the pass. */
  function Optimise(g: seq<Node>, packets: seq<Packet>): seq<Packet>
    requires forall p :: p in packets ==> Readable(g, p)
  {
    OptimiseFrom(g, packets, 0)
  }

  // ---------------------------------------------------------------------------------------------
  // What the traversal finds
  // ---------------------------------------------------------------------------------------------

  /** The flags read at or below a node; with through off, not looking below guarded nodes. */
  function Below(g: seq<Node>, first: nat, n: nat, through: bool): set<FlagReg>
    requires first <= n && Built(g, first, n + 1)
    decreases 2 * n + 1
  {
    assert NodeOk(g, first, n);
    match g[n]
    case ReadReg(Flag(f)) => {f}
    case ReadReg(Other(_)) => {}
    case _ => if Guarded(g[n]) && !through then {} else BelowPorts(g, first, n, Operands(g[n]), through)
  }

  function BelowPorts(g: seq<Node>, first: nat, bound: nat, args: seq<Port>, through: bool): (r: set<FlagReg>)
    requires Built(g, first, bound)
    requires forall p :: p in args ==> first <= p.owner < bound
    decreases 2 * bound, |args|
  {
    if args == [] then {}
    else Below(g, first, args[0].owner, through) + BelowPorts(g, first, bound, args[1..], through)
  }

  /** Everything below a finished node has been found. */
  ghost predicate Finished(g: seq<Node>, first: nat, n: nat, found: set<FlagReg>)
    requires Built(g, first, n + 1)
  {
    first <= n ==> Below(g, first, n, false) <= found
  }

  /** The nodes below bound that the traversal has marked are finished; those above may still be in progress. */
  ghost predicate Settled(g: seq<Node>, first: nat, bound: nat, v: Visit)
    requires Built(g, first, bound)
  {
    forall n :: n in v.seen && n < bound ==> Finished(g, first, n, v.found)
  }

  /** A visit through a port finds exactly what is visibly below it, and leaves every node it marked finished. */
  lemma {:induction false} VisitPortFinds(g: seq<Node>, first: nat, n: nat, v: Visit)
    requires first <= n && Built(g, first, n + 1) && HasValue(g[n]) && Settled(g, first, n + 1, v)
    ensures var v' := VisitPort(g, first, n, v);
            && v.seen <= v'.seen && v'.found == v.found + Below(g, first, n, false)
            && (forall m :: m in v'.seen && m !in v.seen ==> first <= m <= n && Finished(g, first, m, v'.found))
    decreases 2 * n + 1
  {
    assert NodeOk(g, first, n);
    if n in v.seen {
      assert Finished(g, first, n, v.found);
    } else if g[n].Arith? || g[n].Pure? {
      VisitPortsFind(g, first, n, g[n].args, v.(seen := v.seen + {n}));
    }
  }

  lemma {:induction false} VisitPortsFind(g: seq<Node>, first: nat, bound: nat, args: seq<Port>, v: Visit)
    requires Built(g, first, bound) && Settled(g, first, bound, v)
    requires forall p :: p in args ==> first <= p.owner < bound && HasValue(g[p.owner])
    ensures var v' := VisitPorts(g, first, bound, args, v);
            && v.seen <= v'.seen && v'.found == v.found + BelowPorts(g, first, bound, args, false)
            && (forall m :: m in v'.seen && m !in v.seen ==> first <= m < bound && Finished(g, first, m, v'.found))
    decreases 2 * bound, |args|
  {
    if args != [] {
      VisitPortFinds(g, first, args[0].owner, v);
      var v1 := VisitPort(g, first, args[0].owner, v);
      assert Settled(g, first, bound, v1) by {
        forall m | m in v1.seen && m < bound ensures Finished(g, first, m, v1.found) {
          if m in v.seen { assert Finished(g, first, m, v.found); }
        }
      }
      VisitPortsFind(g, first, bound, args[1..], v1);
    }
  }

  /** No flag is read below an atomic or internal-call node. */
  ghost predicate NothingHidden(g: seq<Node>, first: nat, end: nat)
    requires Built(g, first, end)
  {
    forall n :: first <= n < end && Guarded(g[n]) ==> HidesNothing(g, first, n)
  }

  ghost predicate HidesNothing(g: seq<Node>, first: nat, n: nat)
    requires first <= n && Built(g, first, n + 1)
  {
    Below(g, first, n, true) == {}
  }

  lemma {:induction false} NothingHiddenBelow(g: seq<Node>, first: nat, n: nat)
    requires first <= n && Built(g, first, n + 1) && NothingHidden(g, first, n + 1)
    ensures Below(g, first, n, true) == Below(g, first, n, false)
    decreases 2 * n + 1
  {
    assert NodeOk(g, first, n);
    if Guarded(g[n]) {
      assert HidesNothing(g, first, n);
    } else if !g[n].ReadReg? {
      NothingHiddenBelowPorts(g, first, n, Operands(g[n]));
    }
  }

  lemma {:induction false} NothingHiddenBelowPorts(g: seq<Node>, first: nat, bound: nat, args: seq<Port>)
    requires Built(g, first, bound) && NothingHidden(g, first, bound)
    requires forall p :: p in args ==> first <= p.owner < bound
    ensures BelowPorts(g, first, bound, args, true) == BelowPorts(g, first, bound, args, false)
    decreases 2 * bound, |args|
  {
    if args != [] {
      var n := args[0].owner;
      assert NothingHidden(g, first, n + 1) by {
        forall m | first <= m < n + 1 && Guarded(g[m]) ensures HidesNothing(g, first, m) {}
      }
      NothingHiddenBelow(g, first, n);
      NothingHiddenBelowPorts(g, first, bound, args[1..]);
    }
  }

  /** What an action finds: everything visibly below it, unless it is guarded and a later action's port got there
      first. */
  lemma VisitActionFinds(g: seq<Node>, first: nat, n: nat, s: Pass)
    requires first <= n && Built(g, first, n + 1) && IsAction(g[n]) && Settled(g, first, n + 1, s.visit)
    ensures var s' := VisitAction(g, first, n, s);
            assert NodeOk(g, first, n);
            && s.visit.seen <= s'.visit.seen && Settled(g, first, n, s'.visit)
            && s'.visit.found == s.visit.found +
                 (if Guarded(g[n]) && n in s.visit.seen then {} else BelowPorts(g, first, n, Operands(g[n]), false))
            && (forall m :: m in s'.visit.seen && m !in s.visit.seen ==>
                  first <= m <= n && Finished(g, first, m, s'.visit.found))
  {
    assert NodeOk(g, first, n);
    assert forall m :: m in s.visit.seen && m < n ==> Finished(g, first, m, s.visit.found);
    VisitPortsFind(g, first, n, Operands(g[n]), s.visit);
    var s' := VisitAction(g, first, n, s);
    forall m | m in s'.visit.seen && m < n ensures Finished(g, first, m, s'.visit.found) {
      if m in s.visit.seen { assert Finished(g, first, m, s.visit.found); }
    }
  }

  /** Nothing in a packet has been marked before its visit starts. */
  predicate Untouched(p: Packet, seen: set<nat>) {
    forall n :: n in seen ==> !(p.first <= n < p.end)
  }

  /** The flags the actions numbered id and up find: a guarded action that a later one reaches through a port
      contributes nothing. */
  function FoundFrom(g: seq<Node>, p: Packet, id: nat, s: Pass): set<FlagReg>
    requires p.first <= id && Built(g, p.first, p.end)
    decreases p.end - id
  {
    if id >= p.end then {}
    else
      var after := VisitFrom(g, p, id + 1, s);
      assert NodeOk(g, p.first, id);
      FoundFrom(g, p, id + 1, s) +
      (if id !in p.actions || (Guarded(g[id]) && id in after.visit.seen) then {}
       else BelowPorts(g, p.first, id, Operands(g[id]), false))
  }

  /** The reads found in a packet are exactly those. */
  lemma {:induction false} VisitFromFinds(g: seq<Node>, p: Packet, id: nat, s: Pass)
    requires p.first <= id && PacketOk(g, p) && Untouched(p, s.visit.seen) && s.visit.found == {}
    ensures var s' := VisitFrom(g, p, id, s);
            && (id <= p.end ==> Settled(g, p.first, id, s'.visit)) && s'.visit.found == FoundFrom(g, p, id, s)
            && (forall m :: m in s'.visit.seen ==> m in s.visit.seen || p.first <= m < p.end)
    decreases p.end - id
  {
    if id < p.end {
      VisitFromFinds(g, p, id + 1, s);
      var after := VisitFrom(g, p, id + 1, s);
      if id in p.actions {
        VisitActionFinds(g, p.first, id, after);
      } else {
        forall m | m in after.visit.seen && m < id ensures Finished(g, p.first, m, after.visit.found) {}
      }
    }
  }

  /** When no flag read hides below a guarded node, every flag an action of the packet reads is found. */
  lemma {:induction false} EveryReadFound(g: seq<Node>, p: Packet, id: nat, s: Pass, a: nat)
    requires p.first <= id && PacketOk(g, p) && NothingHidden(g, p.first, p.end)
    requires a in p.actions && id <= a
    ensures NodeOk(g, p.first, a) && BelowPorts(g, p.first, a, Operands(g[a]), true) <= FoundFrom(g, p, id, s)
    decreases p.end - id
  {
    assert NodeOk(g, p.first, a);
    if id < a {
      EveryReadFound(g, p, id + 1, s, a);
    } else {
      assert Guarded(g[a]) ==> HidesNothing(g, p.first, a);
      forall m | p.first <= m < a && Guarded(g[m]) ensures HidesNothing(g, p.first, m) {}
      NothingHiddenBelowPorts(g, p.first, a, Operands(g[a]));
    }
  }

  // ---------------------------------------------------------------------------------------------
  // Which writes are deleted
  // ---------------------------------------------------------------------------------------------

  /** A flag write is dead when a later packet or action of the chunk writes the flag again and nothing found so
      far reads it in between. */
  predicate DeadAt(g: seq<Node>, p: Packet, id: nat, s: Pass)
    requires p.first <= id < p.end && Built(g, p.first, p.end)
  {
    var after := VisitFrom(g, p, id + 1, s);
    id in p.actions && IsFlagWrite(g[id]) && g[id].reg.flag in after.last && g[id].reg.flag !in after.live
  }

  lemma {:induction false} DeletedExactly(g: seq<Node>, p: Packet, from: nat, s: Pass)
    requires p.first <= from <= p.end && Built(g, p.first, p.end) && s.deleted == []
    ensures forall id :: id in VisitFrom(g, p, from, s).deleted ==> from <= id < p.end
    ensures forall id :: from <= id < p.end ==> (id in VisitFrom(g, p, from, s).deleted <==> DeadAt(g, p, id, s))
    decreases p.end - from
  {
    if from < p.end {
      DeletedExactly(g, p, from + 1, s);
    }
  }

  // ---------------------------------------------------------------------------------------------
  // Meaning is preserved
  // ---------------------------------------------------------------------------------------------

  /** Two flag states agree on every flag that is live, and on every flag not written later in the chunk. */
  predicate Agree(x: Flags, y: Flags, live: set<FlagReg>, last: set<FlagReg>) {
    forall f: FlagReg :: f in live || f !in last ==> GetFlag(x, f) == GetFlag(y, f)
  }

  predicate AgreeOn(x: Flags, y: Flags, on: set<FlagReg>) {
    forall f: FlagReg :: f in on ==> GetFlag(x, f) == GetFlag(y, f)
  }

  lemma SetGetFlag(s: Flags, f: FlagReg, v: int, h: FlagReg)
    ensures GetFlag(SetFlag(s, f, v), h) == if h == f then v else GetFlag(s, h)
  {
  }

  /** The nodes made so far have equal port values unless a flag outside on is read below them. */
  ghost predicate SameValues(g: seq<Node>, first: nat, id: nat, on: set<FlagReg>, x: seq<Ports>, y: seq<Ports>)
    requires first <= id && Built(g, first, id)
  {
    |x| == id - first && |y| == id - first &&
    forall n :: first <= n < id && Below(g, first, n, true) <= on ==> x[n - first] == y[n - first]
  }

  lemma {:induction false} SameArgs(g: seq<Node>, first: nat, id: nat, on: set<FlagReg>, x: seq<Ports>,
                                    y: seq<Ports>, args: seq<Port>)
    requires first <= id && Built(g, first, id) && SameValues(g, first, id, on, x, y)
    requires forall p :: p in args ==> first <= p.owner < id
    requires BelowPorts(g, first, id, args, true) <= on
    ensures ArgValues(first, x, args) == ArgValues(first, y, args)
    decreases |args|
  {
    if args != [] {
      var n := args[0].owner;
      assert Below(g, first, n, true) <= on;
      assert x[n - first] == y[n - first];
      SameArgs(g, first, id, on, x, y, args[1..]);
    }
  }

  /** One node, executed in the original and in the optimised packet. */
  lemma StepAgrees(m: Meaning, g: seq<Node>, p: Packet, q: Packet, entry: Flags, entry': Flags, id: nat,
                   x: Progress, y: Progress, on: set<FlagReg>, before: Pass, after: Pass)
    requires !m.inOrder && PacketOk(g, p) && p.first <= id < p.end && q.first == p.first
    requires AgreeOn(entry, entry', on) && SameValues(g, p.first, id, on, x.env, y.env)
    requires NodeOk(g, p.first, id)
    requires id in p.actions ==> BelowPorts(g, p.first, id, Operands(g[id]), true) <= on
    requires before == if id in p.actions then VisitAction(g, p.first, id, after) else after
    requires (id in q.actions) ==
      (id in p.actions && !(IsFlagWrite(g[id]) && g[id].reg.flag in after.last && g[id].reg.flag !in after.live))
    requires x.rest == y.rest && Agree(x.flags, y.flags, before.live, before.last)
    ensures var x', y' := ExecNode(m, g, p, entry, id, x), ExecNode(m, g, q, entry', id, y);
            && x'.rest == y'.rest && Agree(x'.flags, y'.flags, after.live, after.last)
            && SameValues(g, p.first, id + 1, on, x'.env, y'.env)
  {
    var n := g[id];
    var x', y' := ExecNode(m, g, p, entry, id, x), ExecNode(m, g, q, entry', id, y);
    if BelowPorts(g, p.first, id, Operands(n), true) <= on {
      SameArgs(g, p.first, id, on, x.env, y.env, Operands(n));
      assert n.WriteReg? ==> ArgValues(p.first, x.env, [n.value])[0] == ArgValues(p.first, y.env, [n.value])[0];
    }
    if Below(g, p.first, id, true) <= on && n.ReadReg? && n.reg.Flag? {
      assert n.reg.flag in Below(g, p.first, id, true);
    }
    forall f: FlagReg | f in after.live || f !in after.last
      ensures GetFlag(x'.flags, f) == GetFlag(y'.flags, f)
    {
      if IsFlagWrite(n) {
        SetGetFlag(x.flags, n.reg.flag, Operand(p.first, x.env, n.value), f);
        SetGetFlag(y.flags, n.reg.flag, Operand(p.first, y.env, n.value), f);
      }
    }
  }

  /** The rest of a packet, executed in the original and in the optimised packet. */
  lemma {:induction false} RestAgrees(m: Meaning, g: seq<Node>, p: Packet, s: Pass, entry: Flags, entry': Flags,
                                      id: nat,
                                      x: Progress, y: Progress, on: set<FlagReg>)
    requires !m.inOrder && PacketOk(g, p) && p.first <= id <= p.end && s.deleted == []
    requires AgreeOn(entry, entry', on) && SameValues(g, p.first, id, on, x.env, y.env)
    requires forall a :: a in p.actions ==>
                 NodeOk(g, p.first, a) && BelowPorts(g, p.first, a, Operands(g[a]), true) <= on
    requires x.rest == y.rest
    requires var after := VisitFrom(g, p, id, s); Agree(x.flags, y.flags, after.live, after.last)
    ensures var q := p.(actions := Survivors(p.actions, VisitFrom(g, p, p.first, s).deleted));
            var x', y' := ExecFrom(m, g, p, entry, id, x), ExecFrom(m, g, q, entry', id, y);
            x'.rest == y'.rest && Agree(x'.flags, y'.flags, s.live, s.last)
    decreases p.end - id
  {
    if id < p.end {
      var q := p.(actions := Survivors(p.actions, VisitFrom(g, p, p.first, s).deleted));
      DeletedExactly(g, p, p.first, s);
      assert id in q.actions <==> id in p.actions && !DeadAt(g, p, id, s);
      var after := VisitFrom(g, p, id + 1, s);
      assert NodeOk(g, p.first, id);
      StepAgrees(m, g, p, q, entry, entry', id, x, y, on, VisitFrom(g, p, id, s), after);
      RestAgrees(m, g, p, s, entry, entry', id + 1,
                 ExecNode(m, g, p, entry, id, x), ExecNode(m, g, q, entry', id, y), on);
    }
  }

  /** Every flag read in a packet is found, so agreement before the packet gives agreement after it. */
  lemma PacketAgrees(m: Meaning, g: seq<Node>, p: Packet, b: Between, x: Guest, y: Guest)
    requires !m.inOrder && PacketOk(g, p) && NothingHidden(g, p.first, p.end) && Untouched(p, b.seen)
    requires var s := VisitPacket(g, p, b);
             x.rest == y.rest && Agree(x.flags, y.flags, AfterPacket(s).live, AfterPacket(s).last)
    ensures var q := p.(actions := Survivors(p.actions, VisitPacket(g, p, b).deleted));
            var x', y' := ExecPacket(m, g, p, x), ExecPacket(m, g, q, y);
            x'.rest == y'.rest && Agree(x'.flags, y'.flags, b.live, b.last)
  {
    var s := Pass(Visit(b.seen, {}), b.live, b.last, []);
    var on := VisitPacket(g, p, b).visit.found;
    VisitFromFinds(g, p, p.first, s);
    forall a | a in p.actions
      ensures NodeOk(g, p.first, a) && BelowPorts(g, p.first, a, Operands(g[a]), true) <= on
    {
      EveryReadFound(g, p, p.first, s, a);
    }
    RestAgrees(m, g, p, s, x.flags, y.flags, p.first, Progress(x.flags, x.rest, []), Progress(y.flags, y.rest, []), on);
  }

  ghost predicate NothingHiddenInChunk(g: seq<Node>, packets: seq<Packet>)
    requires ChunkOk(g, packets)
  {
    forall p :: p in packets ==> NothingHidden(g, p.first, p.end)
  }

  /** Later packets leave an earlier one's nodes unmarked. */
  lemma {:induction false} LaterPacketsOnly(g: seq<Node>, packets: seq<Packet>, i: nat)
    requires ChunkOk(g, packets) && i <= |packets|
    ensures forall n :: n in VisitChunkFrom(g, packets, i).seen ==> i < |packets| && packets[i].first <= n
    decreases |packets| - i
  {
    if i < |packets| {
      LaterPacketsOnly(g, packets, i + 1);
      var b := VisitChunkFrom(g, packets, i + 1);
      assert Untouched(packets[i], b.seen);
      VisitFromFinds(g, packets[i], packets[i].first, Pass(Visit(b.seen, {}), b.live, b.last, []));
    }
  }

  lemma {:induction false} ChunkAgrees(m: Meaning, g: seq<Node>, packets: seq<Packet>, i: nat, x: Guest, y: Guest)
    requires !m.inOrder && ChunkOk(g, packets) && NothingHiddenInChunk(g, packets) && i <= |packets|
    requires var b := VisitChunkFrom(g, packets, i); x.rest == y.rest && Agree(x.flags, y.flags, b.live, b.last)
    ensures (assert forall p :: p in packets[i..] ==> p in packets && Readable(g, p);
             ExecChunk(m, g, packets[i..], x)) == ExecChunk(m, g, OptimiseFrom(g, packets, i), y)
    decreases |packets| - i
  {
    if i == |packets| {
      assert forall f: FlagReg :: GetFlag(x.flags, f) == GetFlag(y.flags, f);
      assert GetFlag(x.flags, ZF) == GetFlag(y.flags, ZF) && GetFlag(x.flags, CF) == GetFlag(y.flags, CF)
        && GetFlag(x.flags, OF) == GetFlag(y.flags, OF) && GetFlag(x.flags, SF) == GetFlag(y.flags, SF)
        && GetFlag(x.flags, PF) == GetFlag(y.flags, PF);
    } else {
      LaterPacketsOnly(g, packets, i + 1);
      var b := VisitChunkFrom(g, packets, i + 1);
      assert Untouched(packets[i], b.seen);
      PacketAgrees(m, g, packets[i], b, x, y);
      var q := OptimisePacket(g, packets, i);
      ChunkAgrees(m, g, packets, i + 1, ExecPacket(m, g, packets[i], x), ExecPacket(m, g, q, y));
      assert packets[i..][1..] == packets[i + 1..];
      assert OptimiseFrom(g, packets, i)[1..] == OptimiseFrom(g, packets, i + 1);
    }
  }

  /** Dead flag elimination preserves meaning: from any guest state, the optimised chunk ends with the same
      registers, memory and flags, whatever the operations mean. Flag reads see the state at the start of their
      packet; when they are made in order instead, no packet may read a flag it has itself written before. */
  lemma DeadFlagEliminationIsSound(m: Meaning, g: seq<Node>, packets: seq<Packet>, s: Guest)
    requires ChunkOk(g, packets) && NothingHiddenInChunk(g, packets)
    requires m.inOrder ==> forall p :: p in packets ==> ReadsFirst(g, p)
    ensures ExecChunk(m, g, Optimise(g, packets), s) == ExecChunk(m, g, packets, s)
  {
    var m' := m.(inOrder := false);
    ChunkAgrees(m', g, packets, 0, s, s);
    assert packets[0..] == packets;
    if m.inOrder {
      SameOrder(m, g, packets, s);
      OptimiseSubset(g, packets, 0);
      SameOrder(m, g, Optimise(g, packets), s);
    }
  }

  lemma {:induction false} OptimiseSubset(g: seq<Node>, packets: seq<Packet>, i: nat)
    requires i <= |packets| && forall p :: p in packets ==> Readable(g, p)
    requires forall p :: p in packets ==> ReadsFirst(g, p)
    ensures forall q :: q in OptimiseFrom(g, packets, i) ==> ReadsFirst(g, q)
    decreases |packets| - i
  {
    if i < |packets| {
      OptimiseSubset(g, packets, i + 1);
      assert ReadsFirst(g, packets[i]);
      assert ReadsFirst(g, OptimisePacket(g, packets, i));
    }
  }
}
