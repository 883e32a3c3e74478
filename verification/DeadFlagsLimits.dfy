/** Two concrete chunks whose meaning the dead flag pass changes: in each a write it deletes is visible.

    One reads a flag below a node the traversal has already marked; the other rereads a flag its packet has written.
    DeadFlagsRight.PassIsRightExactly says that nothing else can go wrong. */
module DeadFlagsLimits {
  import opened Ir
  import opened DeadFlags
  import opened DeadFlagsExact

  const CLEAR := Flags(0, 0, 0, 0, 0)
  const START := Guest(CLEAR, Rest(map[], map[]))

  /** Operation 0 gives 1; operation 1 stores its operand at address 0; all other results are 0. */
  function Simple(inOrder: bool): Meaning {
    Meaning(inOrder, (i: nat, r: Rest) => 0, (i: nat, v: int, r: Rest) => r,
            (op: nat, args: seq<int>, r: Rest) => JustValue(if op == 0 then 1 else 0),
            (op: nat, args: seq<int>, r: Rest) =>
              if op == 1 && |args| == 1 then r.(memory := r.memory[0 := args[0]]) else r)
  }

  // ---------------------------------------------------------------------------------------------
  // A read below an atomic node
  // ---------------------------------------------------------------------------------------------

  /** One packet sets CF; the next has an atomic node over a read of CF and sets CF from the node. That write reaches
      the atomic node through a port, which marks the node; the node is then skipped as an action and the read below
      it is never visited. This is a limit of the pass on the IR: no translator makes an atomic node over a flag read.
      */
  function Hidden(): seq<Node> {
    [Pure(0, []), WriteReg(Flag(CF), Port(0, Value)),
     ReadReg(Flag(CF)), Atomic(1, [Port(2, Value)]), WriteReg(Flag(CF), Port(3, Carry))]
  }

  function HiddenPackets(): seq<Packet> {
    [Packet(0, 2, [1]), Packet(2, 5, [3, 4])]
  }

  lemma HiddenPacketOk(p: Packet)
    requires p in HiddenPackets()
    ensures PacketOk(Hidden(), p)
  {
    var g := Hidden();
    assert Operands(g[0]) == [] && Operands(g[2]) == [];
    assert NodeOk(g, 0, 0) && NodeOk(g, 0, 1);
    assert NodeOk(g, 2, 2) && NodeOk(g, 2, 3) && NodeOk(g, 2, 4);
  }

  lemma HiddenOk()
    ensures ChunkOk(Hidden(), HiddenPackets())
  {
    forall p | p in HiddenPackets() ensures PacketOk(Hidden(), p) { HiddenPacketOk(p); }
  }

  lemma HiddenNotFound()
    requires ChunkOk(Hidden(), HiddenPackets())
    ensures FoundIn(Hidden(), HiddenPackets(), 1) == {}
  {
    var g, p := Hidden(), HiddenPackets()[1];
    var s := Pass(Visit({}, {}), {}, {}, []);
    assert PacketOk(g, p);
    assert VisitChunkFrom(g, HiddenPackets(), 2) == Between({}, {}, {});
    assert VisitFrom(g, p, 5, s) == s;
    assert VisitPorts(g, 2, 4, [Port(3, Carry)], s.visit) == Visit({3}, {}) by {
      assert VisitPort(g, 2, 3, s.visit) == Visit({3}, {});
      assert [Port(3, Carry)][1..] == [];
    }
    assert VisitFrom(g, p, 4, s).visit == Visit({3}, {});
    assert VisitFrom(g, p, 3, s).visit == Visit({3}, {});
    assert VisitFrom(g, p, 2, s).visit == Visit({3}, {});
  }

  /** The write of CF is deleted, although the very next instruction reads CF. */
  lemma HiddenWriteDeleted()
    requires ChunkOk(Hidden(), HiddenPackets())
    ensures Optimise(Hidden(), HiddenPackets())[0] == Packet(0, 2, [])
    ensures |Optimise(Hidden(), HiddenPackets())| == 2
    ensures var q := Optimise(Hidden(), HiddenPackets())[1]; q.first == 2 && q.end == 5 && 3 in q.actions
  {
    var g, ps := Hidden(), HiddenPackets();
    HiddenNotFound();
    assert Writes(g, ps, 0, 1, CF) && Writes(g, ps, 1, 4, CF);
    DeletedIff(g, ps, 0, 1, 1, 4, CF);
    assert 1 in DeletedIn(g, ps, 0);
    assert [1][1..] == [];
    OnlyFlagWritesGo(g, ps, 1, 3);
    assert OptimiseFrom(g, ps, 0) == [OptimisePacket(g, ps, 0)] + OptimiseFrom(g, ps, 1);
    assert OptimiseFrom(g, ps, 1) == [OptimisePacket(g, ps, 1)] + OptimiseFrom(g, ps, 2);
  }

  /** What the atomic instruction stores is the value CF has when its packet starts. */
  lemma HiddenStores(q: Packet, s: Guest)
    requires q.first == 2 && q.end == 5 && 3 in q.actions && 2 !in q.actions
    ensures ExecPacket(Simple(false), Hidden(), q, s).rest == s.rest.(memory := s.rest.memory[0 := s.flags.cf])
  {
    var m, g := Simple(false), Hidden();
    var x2 := Progress(s.flags, s.rest, []);
    var x3 := ExecNode(m, g, q, s.flags, 2, x2);
    assert x3.env == [JustValue(s.flags.cf)] && x3.rest == s.rest;
    var x4 := ExecNode(m, g, q, s.flags, 3, x3);
    assert ArgValues(2, x3.env, [Port(2, Value)]) == [s.flags.cf];
    assert x4.rest == s.rest.(memory := s.rest.memory[0 := s.flags.cf]);
    var x5 := ExecNode(m, g, q, s.flags, 4, x4);
    assert x5.rest == x4.rest;
    assert ExecFrom(m, g, q, s.flags, 5, x5) == x5;
    assert ExecFrom(m, g, q, s.flags, 4, x4) == x5;
    assert ExecFrom(m, g, q, s.flags, 3, x3) == x5;
  }

  /** So without the assumption that no flag is read below an atomic or internal-call node, the pass is wrong:
      the original chunk stores 1 and the optimised one stores 0. */
  lemma HiddenReadBreaksThePass()
    ensures ChunkOk(Hidden(), HiddenPackets())
    ensures var original := ExecChunk(Simple(false), Hidden(), HiddenPackets(), START);
            var optimised := ExecChunk(Simple(false), Hidden(), Optimise(Hidden(), HiddenPackets()), START);
            original.rest.memory == map[0 := 1] && optimised.rest.memory == map[0 := 0]
  {
    HiddenOk();
    HiddenWriteDeleted();
    OnlyFlagWritesGo(Hidden(), HiddenPackets(), 1, 3);
    assert 2 !in Optimise(Hidden(), HiddenPackets())[1].actions;
    HiddenRuns(HiddenPackets());
    HiddenRuns(Optimise(Hidden(), HiddenPackets()));
  }

  /** What the chunk stores depends on whether the first write of CF is there. */
  lemma {:induction false} HiddenRuns(ps: seq<Packet>)
    requires |ps| == 2 && ps[0].first == 0 && ps[0].end == 2 && 0 !in ps[0].actions
    requires ps[1].first == 2 && ps[1].end == 5 && 3 in ps[1].actions && 2 !in ps[1].actions
    ensures ExecChunk(Simple(false), Hidden(), ps, START).rest.memory == map[0 := if 1 in ps[0].actions then 1 else 0]
  {
    var m, g := Simple(false), Hidden();
    FirstPacket(m, g, ps[0]);
    HiddenStores(ps[1], ExecPacket(m, g, ps[0], START));
    TwoPackets(m, g, ps, START);
  }

  lemma FirstPacket(m: Meaning, g: seq<Node>, p: Packet)
    requires |g| >= 2 && g[0] == Pure(0, []) && g[1].WriteReg? && g[1].reg.Flag? && g[1].value == Port(0, Value)
    requires p.first == 0 && p.end == 2 && 0 !in p.actions && m == Simple(m.inOrder)
    ensures ExecPacket(m, g, p, START) ==
            (if 1 in p.actions then START.(flags := SetFlag(CLEAR, g[1].reg.flag, 1)) else START)
  {
    var x0 := Progress(CLEAR, START.rest, []);
    var x1 := ExecNode(m, g, p, CLEAR, 0, x0);
    assert x1.env == [JustValue(1)];
    var x2 := ExecNode(m, g, p, CLEAR, 1, x1);
    assert ExecFrom(m, g, p, CLEAR, 2, x2) == x2;
    assert ExecFrom(m, g, p, CLEAR, 1, x1) == x2;
  }

  lemma TwoPackets(m: Meaning, g: seq<Node>, ps: seq<Packet>, s: Guest)
    requires |ps| == 2 && forall p :: p in ps ==> p.end <= |g|
    ensures ExecChunk(m, g, ps, s) == ExecPacket(m, g, ps[1], ExecPacket(m, g, ps[0], s))
  {
    var s' := ExecPacket(m, g, ps[0], s);
    assert ps[1..] == [ps[1]] && ps[1..][1..] == [];
    assert ExecChunk(m, g, ps[1..], s') == ExecChunk(m, g, [], ExecPacket(m, g, ps[1], s'));
  }

  // ---------------------------------------------------------------------------------------------
  // A read of a flag the same packet has just written
  // ---------------------------------------------------------------------------------------------

  /** One packet sets ZF and then uses ZF; the next sets ZF again. REPE CMPSB sets ZF and branches on it in one
      packet, in a loop; this straight-line packet stands for one turn of it, with an effect in place of the branch. */
  function Reread(): seq<Node> {
    [Pure(0, []), WriteReg(Flag(ZF), Port(0, Value)), ReadReg(Flag(ZF)), Effect(1, [Port(2, Value)]),
     Pure(0, []), WriteReg(Flag(ZF), Port(4, Value))]
  }

  function RereadPackets(): seq<Packet> {
    [Packet(0, 4, [1, 3]), Packet(4, 6, [5])]
  }

  lemma RereadPacketOk(p: Packet)
    requires p in RereadPackets()
    ensures PacketOk(Reread(), p)
  {
    var g := Reread();
    assert Operands(g[0]) == [] && Operands(g[2]) == [] && Operands(g[4]) == [];
    assert NodeOk(g, 0, 0) && NodeOk(g, 0, 1) && NodeOk(g, 0, 2) && NodeOk(g, 0, 3);
    assert NodeOk(g, 4, 4) && NodeOk(g, 4, 5);
  }

  lemma RereadOk()
    ensures ChunkOk(Reread(), RereadPackets())
  {
    forall p | p in RereadPackets() ensures PacketOk(Reread(), p) { RereadPacketOk(p); }
  }

  lemma RereadWriteDeleted()
    requires ChunkOk(Reread(), RereadPackets())
    ensures var q := OptimisePacket(Reread(), RereadPackets(), 0);
            q.first == 0 && q.end == 4 && 1 !in q.actions && 3 in q.actions && 0 !in q.actions && 2 !in q.actions
  {
    var g, ps := Reread(), RereadPackets();
    var s := Pass(Visit({}, {}), {}, {}, []);
    assert PacketOk(g, ps[1]);
    assert VisitChunkFrom(g, ps, 2) == Between({}, {}, {});
    assert VisitFrom(g, ps[1], 6, s) == s;
    assert VisitPorts(g, 4, 5, [Port(4, Value)], s.visit) == Visit({4}, {}) by {
      assert VisitPort(g, 4, 4, s.visit) == Visit({4}, {});
      assert [Port(4, Value)][1..] == [];
    }
    assert VisitFrom(g, ps[1], 5, s).visit == Visit({4}, {});
    assert VisitFrom(g, ps[1], 4, s).visit == Visit({4}, {});
    assert FoundIn(g, ps, 1) == {};
    assert Writes(g, ps, 0, 1, ZF) && Writes(g, ps, 1, 5, ZF);
    DeletedIff(g, ps, 0, 1, 1, 5, ZF);
    assert 1 in DeletedIn(g, ps, 0);
    OnlyFlagWritesGo(g, ps, 0, 3);
  }

  /** What the first instruction stores, when flags are read in order. */
  lemma RereadStores(q: Packet)
    requires q.first == 0 && q.end == 4 && 3 in q.actions && 0 !in q.actions && 2 !in q.actions
    ensures ExecPacket(Simple(true), Reread(), q, START).rest.memory == map[0 := if 1 in q.actions then 1 else 0]
  {
    var m, g := Simple(true), Reread();
    var x0 := Progress(CLEAR, START.rest, []);
    var x1 := ExecNode(m, g, q, CLEAR, 0, x0);
    assert x1.env == [JustValue(1)];
    var x2 := ExecNode(m, g, q, CLEAR, 1, x1);
    assert x2.flags.zf == (if 1 in q.actions then 1 else 0) && x2.rest == START.rest;
    var x3 := ExecNode(m, g, q, CLEAR, 2, x2);
    assert x3.env[2] == JustValue(x2.flags.zf);
    var x4 := ExecNode(m, g, q, CLEAR, 3, x3);
    assert ArgValues(0, x3.env, [Port(2, Value)]) == [x2.flags.zf];
    assert ExecFrom(m, g, q, CLEAR, 4, x4) == x4;
    assert ExecFrom(m, g, q, CLEAR, 3, x3) == x4;
    assert ExecFrom(m, g, q, CLEAR, 2, x2) == x4;
    assert ExecFrom(m, g, q, CLEAR, 1, x1) == x4;
  }

  /** With flags read in order, deleting that write changes what the first instruction itself stores. */
  lemma RereadBreaksThePass()
    ensures ChunkOk(Reread(), RereadPackets())
    ensures ExecPacket(Simple(true), Reread(), RereadPackets()[0], START).rest.memory == map[0 := 1]
    ensures ExecPacket(Simple(true), Reread(), Optimise(Reread(), RereadPackets())[0], START).rest.memory == map[0 := 0]
  {
    RereadOk();
    RereadWriteDeleted();
    var g, ps := Reread(), RereadPackets();
    RereadStores(ps[0]);
    RereadStores(OptimisePacket(g, ps, 0));
  }
}
