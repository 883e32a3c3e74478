/** Exactly which flag writes can be dropped from a chunk: those whose flag is not wanted afterwards. A value is wanted
    when it reaches memory, a register, an effect or the final flags. */
module DeadFlagsVisible {
  import opened Ir
  import opened DeadFlags

  // ---------------------------------------------------------------------------------------------
  // What is wanted
  // ---------------------------------------------------------------------------------------------

  /** At a point of a packet: the flags and node values wanted from here on, and the flags whose value at the start of
      the packet is. */
  datatype Wants = Wants(live: set<FlagReg>, nodes: set<nat>, entry: set<FlagReg>)

  function Owners(args: seq<Port>): set<nat> {
    set p | p in args :: p.owner
  }

  /** An action wants its operands, unless it writes a flag nobody wants. */
  function WantsAction(g: seq<Node>, q: Packet, id: nat, after: Wants): Wants
    requires id < |g|
  {
    if id !in q.actions then after
    else if !IsFlagWrite(g[id]) then after.(nodes := after.nodes + Owners(Operands(g[id])))
    else if g[id].reg.flag in after.live then
      after.(live := after.live - {g[id].reg.flag}, nodes := after.nodes + Owners(Operands(g[id])))
    else after
  }

  /** A wanted node wants its operands; a wanted flag read, the flag: now, or as it was when the packet started. */
  function WantsValue(g: seq<Node>, inOrder: bool, id: nat, after: Wants): Wants
    requires id < |g|
  {
    if id !in after.nodes then after
    else
      var w := after.(nodes := after.nodes - {id});
      match g[id]
      case ReadReg(Flag(f)) => if inOrder then w.(live := w.live + {f}) else w.(entry := w.entry + {f})
      case ReadReg(Other(_)) => w
      case WriteReg(_, _) => w
      case Effect(_, _) => w
      case _ => w.(nodes := w.nodes + Owners(g[id].args))
  }

  function WantsNode(g: seq<Node>, q: Packet, inOrder: bool, id: nat, after: Wants): Wants
    requires id < |g|
  {
    WantsValue(g, inOrder, id, WantsAction(g, q, id, after))
  }

  /** What the nodes from id on of packet q want, when the flags in out are wanted after it. */
  function WantsFrom(g: seq<Node>, q: Packet, inOrder: bool, id: nat, out: set<FlagReg>): Wants
    requires q.end <= |g|
    decreases q.end - id
  {
    if id >= q.end then Wants(out, {}, {}) else WantsNode(g, q, inOrder, id, WantsFrom(g, q, inOrder, id + 1, out))
  }

  const ALL_FLAGS: set<FlagReg> := {ZF, CF, OF, SF, PF}

  /** The flags wanted before packet i: at the end of the chunk, all of them are. */
  function WantedAt(g: seq<Node>, qs: seq<Packet>, inOrder: bool, i: nat): set<FlagReg>
    requires forall q :: q in qs ==> q.end <= |g|
    decreases |qs| - i
  {
    if i >= |qs| then ALL_FLAGS
    else
      var w := WantsFrom(g, qs[i], inOrder, qs[i].first, WantedAt(g, qs, inOrder, i + 1));
      w.live + w.entry
  }

  // ---------------------------------------------------------------------------------------------
  // Dropping flag writes
  // ---------------------------------------------------------------------------------------------

  /** q is p without some of its flag writes. */
  predicate Thinned(g: seq<Node>, p: Packet, q: Packet) {
    && q.first == p.first && q.end == p.end
    && (forall a :: a in q.actions ==> a in p.actions)
    && (forall a :: a in p.actions && a !in q.actions ==> a < |g| && IsFlagWrite(g[a]))
  }

  predicate ChunkThinned(g: seq<Node>, ps: seq<Packet>, qs: seq<Packet>) {
    |ps| == |qs| && forall i :: 0 <= i < |ps| ==> Thinned(g, ps[i], qs[i])
  }

  /** Write u was dropped from packet i. */
  predicate Dropped(ps: seq<Packet>, qs: seq<Packet>, i: nat, u: nat) {
    i < |ps| == |qs| && u in ps[i].actions && u !in qs[i].actions
  }

  /** The flag that u writes is wanted by what is left of the chunk after it. */
  predicate Visible(g: seq<Node>, qs: seq<Packet>, inOrder: bool, i: nat, u: nat)
    requires forall q :: q in qs ==> q.end <= |g|
  {
    && i < |qs| && u < |g| && IsFlagWrite(g[u])
    && g[u].reg.flag in WantsFrom(g, qs[i], inOrder, u + 1, WantedAt(g, qs, inOrder, i + 1)).live
  }

  /** No dropped write is visible in the original chunk. */
  ghost predicate NothingVisibleDropped(g: seq<Node>, ps: seq<Packet>, qs: seq<Packet>, inOrder: bool)
    requires forall p :: p in ps ==> p.end <= |g|
  {
    forall i, u :: Dropped(ps, qs, i, u) ==> !Visible(g, ps, inOrder, i, u)
  }

  /** Write v of packet k comes after write u of packet i. */
  predicate After(i: nat, u: nat, k: nat, v: nat) {
    i < k || (i == k && u < v)
  }

  /** Writes nobody wants want nothing themselves: where no later dropped write is visible, in the original chunk or in
      the thinned one, both want the same. */
  lemma {:induction false} SameWants(g: seq<Node>, ps: seq<Packet>, qs: seq<Packet>, rs: seq<Packet>, inOrder: bool,
                                     i: nat, id: nat)
    requires ChunkOk(g, ps) && ChunkThinned(g, ps, qs) && (rs == ps || rs == qs) && i < |ps|
    requires forall q :: q in ps + qs ==> q.end <= |g|
    requires forall k, v :: Dropped(ps, qs, k, v) && (i < k || (i == k && id <= v)) ==> !Visible(g, rs, inOrder, k, v)
    ensures WantsFrom(g, ps[i], inOrder, id, WantedAt(g, ps, inOrder, i + 1))
         == WantsFrom(g, qs[i], inOrder, id, WantedAt(g, qs, inOrder, i + 1))
    decreases |ps| - i, ps[i].end - id
  {
    assert PacketOk(g, ps[i]) && Thinned(g, ps[i], qs[i]);
    if id < ps[i].end {
      SameWants(g, ps, qs, rs, inOrder, i, id + 1);
      if Dropped(ps, qs, i, id) { assert !Visible(g, rs, inOrder, i, id); }
    } else if i + 1 < |ps| {
      SameWants(g, ps, qs, rs, inOrder, i + 1, ps[i + 1].first);
    }
  }

  /** A dropped write is visible in the original chunk exactly when it is in the thinned one, if no later one is. */
  lemma SameVisible(g: seq<Node>, ps: seq<Packet>, qs: seq<Packet>, rs: seq<Packet>, inOrder: bool, i: nat, u: nat)
    requires ChunkOk(g, ps) && ChunkThinned(g, ps, qs) && (rs == ps || rs == qs) && Dropped(ps, qs, i, u)
    requires forall q :: q in ps + qs ==> q.end <= |g|
    requires forall k, v :: Dropped(ps, qs, k, v) && After(i, u, k, v) ==> !Visible(g, rs, inOrder, k, v)
    ensures Visible(g, ps, inOrder, i, u) <==> Visible(g, qs, inOrder, i, u)
  {
    SameWants(g, ps, qs, rs, inOrder, i, u + 1);
  }

  // ---------------------------------------------------------------------------------------------
  // Nothing visible dropped: nothing changes
  // ---------------------------------------------------------------------------------------------

  /** Two runs that agree on everything wanted. */
  ghost predicate Same(first: nat, w: Wants, entryX: Flags, entryY: Flags, x: Progress, y: Progress) {
    && x.rest == y.rest && |x.env| == |y.env|
    && AgreeOn(x.flags, y.flags, w.live) && AgreeOn(entryX, entryY, w.entry)
    && forall n :: n in w.nodes && first <= n < first + |x.env| ==> x.env[n - first] == y.env[n - first]
  }

  lemma {:induction false} SameOperands(first: nat, w: Wants, entryX: Flags, entryY: Flags, x: Progress, y: Progress,
                                        args: seq<Port>)
    requires Same(first, w, entryX, entryY, x, y) && Owners(args) <= w.nodes
    ensures ArgValues(first, x.env, args) == ArgValues(first, y.env, args)
    decreases |args|
  {
    if args != [] {
      assert args[0].owner in Owners(args);
      forall n | n in Owners(args[1..]) ensures n in Owners(args) {
        var p :| p in args[1..] && p.owner == n;
        assert p in args;
      }
      SameOperands(first, w, entryX, entryY, x, y, args[1..]);
    }
  }

  /** A wanted node gets the same value. */
  lemma SamePorts(m: Meaning, g: seq<Node>, first: nat, id: nat, after: Wants, entryX: Flags, entryY: Flags,
                  x: Progress, y: Progress)
    requires id < |g| && id in after.nodes
    requires Same(first, WantsValue(g, m.inOrder, id, after), entryX, entryY, x, y)
    ensures NodePorts(m, first, g[id], entryX, x) == NodePorts(m, first, g[id], entryY, y)
  {
    var n, w := g[id], WantsValue(g, m.inOrder, id, after);
    if !n.ReadReg? && !n.WriteReg? && !n.Effect? {
      SameOperands(first, w, entryX, entryY, x, y, n.args);
    }
  }

  /** An action that is left does the same, as far as anything is wanted; one that is dropped is not missed. */
  lemma SameAct(m: Meaning, g: seq<Node>, p: Packet, q: Packet, id: nat, w: Wants, after: Wants,
                entryX: Flags, entryY: Flags, x: Progress, y: Progress)
    requires id < |g| && Thinned(g, p, q) && (id in p.actions ==> IsAction(g[id]))
    requires id in p.actions && id !in q.actions ==> g[id].reg.flag !in after.live
    requires Same(p.first, w, entryX, entryY, x, y)
    requires w.nodes >= WantsAction(g, q, id, after).nodes && w.live >= WantsAction(g, q, id, after).live
    ensures var x' := if id in p.actions then Act(m, p.first, g[id], x) else x;
            var y' := if id in q.actions then Act(m, p.first, g[id], y) else y;
            && x'.rest == y'.rest && AgreeOn(x'.flags, y'.flags, after.live)
            && x'.env == x.env && y'.env == y.env
  {
    var n := g[id];
    if id in q.actions {
      if !IsFlagWrite(n) || n.reg.flag in after.live {
        SameOperands(p.first, w, entryX, entryY, x, y, Operands(n));
        assert n.WriteReg? ==> ArgValues(p.first, x.env, [n.value])[0] == ArgValues(p.first, y.env, [n.value])[0];
      }
    }
    if IsFlagWrite(n) {
      forall f: FlagReg ensures GetFlag(SetFlag(x.flags, n.reg.flag, Operand(p.first, x.env, n.value)), f) ==
          if f == n.reg.flag then Operand(p.first, x.env, n.value) else GetFlag(x.flags, f) {}
    }
  }

  /** The values made so far and the next node's, which agree if they are wanted. */
  lemma SameEnv(first: nat, w: Wants, after: Wants, id: nat, entryX: Flags, entryY: Flags, x: Progress, y: Progress,
                a: Ports, b: Ports)
    requires Same(first, w, entryX, entryY, x, y) && first <= id && |x.env| == id - first
    requires w.nodes + {id} >= after.nodes && (id in after.nodes ==> a == b)
    ensures forall n :: n in after.nodes && first <= n < first + |x.env + [a]| ==>
              (x.env + [a])[n - first] == (y.env + [b])[n - first]
  {
  }

  /** One node, executed in both packets. */
  lemma StepSame(m: Meaning, g: seq<Node>, p: Packet, q: Packet, id: nat, after: Wants, entryX: Flags, entryY: Flags,
                 x: Progress, y: Progress)
    requires id < |g| && Thinned(g, p, q) && p.first <= id && |x.env| == id - p.first
    requires (id in p.actions ==> IsAction(g[id]))
    requires (id in p.actions && id !in q.actions ==> g[id].reg.flag !in after.live)
    requires Same(p.first, WantsNode(g, q, m.inOrder, id, after), entryX, entryY, x, y)
    ensures Same(p.first, after, entryX, entryY, ExecNode(m, g, p, entryX, id, x), ExecNode(m, g, q, entryY, id, y))
  {
    var w, acted := WantsNode(g, q, m.inOrder, id, after), WantsAction(g, q, id, after);
    OperandsStay(g, q, m.inOrder, id, after);
    if id in acted.nodes { SamePorts(m, g, p.first, id, acted, entryX, entryY, x, y); }
    StepSameFrom(m, g, p, q, id, w, after, entryX, entryY, x, y);
  }

  /** The same, from what the wants before the node give. */
  lemma StepSameFrom(m: Meaning, g: seq<Node>, p: Packet, q: Packet, id: nat, w: Wants, after: Wants,
                     entryX: Flags, entryY: Flags, x: Progress, y: Progress)
    requires id < |g| && Thinned(g, p, q) && p.first <= id && |x.env| == id - p.first
    requires (id in p.actions ==> IsAction(g[id]))
    requires (id in p.actions && id !in q.actions ==> g[id].reg.flag !in after.live)
    requires Same(p.first, w, entryX, entryY, x, y) && w.entry >= after.entry
    requires w.nodes + {id} >= WantsAction(g, q, id, after).nodes >= after.nodes
    requires w.live >= WantsAction(g, q, id, after).live
    requires id in after.nodes ==> NodePorts(m, p.first, g[id], entryX, x) == NodePorts(m, p.first, g[id], entryY, y)
    ensures Same(p.first, after, entryX, entryY, ExecNode(m, g, p, entryX, id, x), ExecNode(m, g, q, entryY, id, y))
  {
    var a, b := NodePorts(m, p.first, g[id], entryX, x), NodePorts(m, p.first, g[id], entryY, y);
    SameAct(m, g, p, q, id, w.(nodes := w.nodes + {id}), after, entryX, entryY, x, y);
    SameEnv(p.first, w, after, id, entryX, entryY, x, y, a, b);
  }

  lemma OperandsStay(g: seq<Node>, q: Packet, inOrder: bool, id: nat, after: Wants)
    requires id < |g|
    ensures var w := WantsNode(g, q, inOrder, id, after);
            && w.nodes + {id} >= WantsAction(g, q, id, after).nodes >= after.nodes
            && w.live >= WantsAction(g, q, id, after).live && w.entry >= after.entry
  {
  }

  /** The dropped writes of packet i are not visible. */
  ghost predicate PacketQuiet(g: seq<Node>, p: Packet, q: Packet, inOrder: bool, out: set<FlagReg>)
    requires q.end <= |g|
  {
    forall u :: u in p.actions && u !in q.actions && u < |g| && IsFlagWrite(g[u]) ==>
      g[u].reg.flag !in WantsFrom(g, q, inOrder, u + 1, out).live
  }

  lemma {:induction false} RestSame(m: Meaning, g: seq<Node>, p: Packet, q: Packet, id: nat, out: set<FlagReg>,
                                    entryX: Flags, entryY: Flags, x: Progress, y: Progress)
    requires PacketOk(g, p) && Thinned(g, p, q) && p.first <= id <= p.end && |x.env| == id - p.first
    requires PacketQuiet(g, p, q, m.inOrder, out)
    requires Same(p.first, WantsFrom(g, q, m.inOrder, id, out), entryX, entryY, x, y)
    ensures var x', y' := ExecFrom(m, g, p, entryX, id, x), ExecFrom(m, g, q, entryY, id, y);
            x'.rest == y'.rest && AgreeOn(x'.flags, y'.flags, out)
    decreases p.end - id
  {
    if id < p.end {
      StepSame(m, g, p, q, id, WantsFrom(g, q, m.inOrder, id + 1, out), entryX, entryY, x, y);
      RestSame(m, g, p, q, id + 1, out, entryX, entryY,
               ExecNode(m, g, p, entryX, id, x), ExecNode(m, g, q, entryY, id, y));
    }
  }

  /** One packet, started in states that agree on the flags wanted there. */
  lemma PacketSame(m: Meaning, g: seq<Node>, p: Packet, q: Packet, out: set<FlagReg>, x: Guest, y: Guest)
    requires PacketOk(g, p) && Thinned(g, p, q) && PacketQuiet(g, p, q, m.inOrder, out) && x.rest == y.rest
    requires var w := WantsFrom(g, q, m.inOrder, q.first, out); AgreeOn(x.flags, y.flags, w.live + w.entry)
    ensures var x', y' := ExecPacket(m, g, p, x), ExecPacket(m, g, q, y);
            x'.rest == y'.rest && AgreeOn(x'.flags, y'.flags, out)
  {
    RestSame(m, g, p, q, p.first, out, x.flags, y.flags, Progress(x.flags, x.rest, []), Progress(y.flags, y.rest, []));
  }

  lemma AllFlagsAgree(x: Flags, y: Flags)
    requires AgreeOn(x, y, ALL_FLAGS)
    ensures x == y
  {
    assert GetFlag(x, ZF) == GetFlag(y, ZF) && GetFlag(x, CF) == GetFlag(y, CF) && GetFlag(x, OF) == GetFlag(y, OF)
      && GetFlag(x, SF) == GetFlag(y, SF) && GetFlag(x, PF) == GetFlag(y, PF);
  }

  lemma ThinnedEnds(g: seq<Node>, ps: seq<Packet>, qs: seq<Packet>)
    requires ChunkOk(g, ps) && ChunkThinned(g, ps, qs)
    ensures (forall p :: p in ps ==> p.end <= |g|) && forall q :: q in qs ==> q.end <= |g|
  {
    forall q | q in qs ensures q.end <= |g| {
      var i :| 0 <= i < |qs| && qs[i] == q;
      assert PacketOk(g, ps[i]) && Thinned(g, ps[i], q);
    }
  }

  lemma {:induction false} ChunkSame(m: Meaning, g: seq<Node>, ps: seq<Packet>, qs: seq<Packet>, i: nat, x: Guest,
                                     y: Guest)
    requires ChunkOk(g, ps) && ChunkThinned(g, ps, qs) && i <= |ps| && forall q :: q in qs ==> q.end <= |g|
    requires forall k, u :: Dropped(ps, qs, k, u) ==> !Visible(g, qs, m.inOrder, k, u)
    requires x.rest == y.rest && AgreeOn(x.flags, y.flags, WantedAt(g, qs, m.inOrder, i))
    ensures forall p :: p in ps[i..] + qs[i..] ==> p.end <= |g|
    ensures ExecChunk(m, g, ps[i..], x) == ExecChunk(m, g, qs[i..], y)
    decreases |ps| - i
  {
    ThinnedEnds(g, ps, qs);
    if i == |ps| {
      AllFlagsAgree(x.flags, y.flags);
    } else {
      var p, q, out := ps[i], qs[i], WantedAt(g, qs, m.inOrder, i + 1);
      assert PacketOk(g, p) && Thinned(g, p, q);
      assert PacketQuiet(g, p, q, m.inOrder, out) by {
        forall u | u in p.actions && u !in q.actions && u < |g| && IsFlagWrite(g[u])
          ensures g[u].reg.flag !in WantsFrom(g, q, m.inOrder, u + 1, out).live
        {
          assert Dropped(ps, qs, i, u);
        }
      }
      PacketSame(m, g, p, q, out, x, y);
      ChunkSame(m, g, ps, qs, i + 1, ExecPacket(m, g, p, x), ExecPacket(m, g, q, y));
      assert ps[i..][1..] == ps[i + 1..] && qs[i..][1..] == qs[i + 1..];
    }
  }

  /** Dropping flag writes that are not visible in what is left changes nothing. */
  lemma DroppingUnseenIsSound(m: Meaning, g: seq<Node>, ps: seq<Packet>, qs: seq<Packet>, s: Guest)
    requires ChunkOk(g, ps) && ChunkThinned(g, ps, qs) && forall q :: q in ps + qs ==> q.end <= |g|
    requires forall k, u :: Dropped(ps, qs, k, u) ==> !Visible(g, qs, m.inOrder, k, u)
    ensures ExecChunk(m, g, ps, s) == ExecChunk(m, g, qs, s)
  {
    ChunkSame(m, g, ps, qs, 0, s, s);
    assert ps[0..] == ps && qs[0..] == qs;
  }

  /** Dropping flag writes that are not visible changes nothing, whatever the operations mean and in whatever state the
      chunk starts. */
  lemma DroppingIsSound(m: Meaning, g: seq<Node>, ps: seq<Packet>, qs: seq<Packet>, s: Guest)
    requires ChunkOk(g, ps) && ChunkThinned(g, ps, qs) && forall q :: q in ps + qs ==> q.end <= |g|
    requires NothingVisibleDropped(g, ps, qs, m.inOrder)
    ensures ExecChunk(m, g, ps, s) == ExecChunk(m, g, qs, s)
  {
    forall k, u | Dropped(ps, qs, k, u) ensures !Visible(g, qs, m.inOrder, k, u) {
      SameVisible(g, ps, qs, ps, m.inOrder, k, u);
    }
    DroppingUnseenIsSound(m, g, ps, qs, s);
  }
}
