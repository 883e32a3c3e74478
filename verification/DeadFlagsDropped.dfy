/** Dropping a visible flag write can be seen: under operations that tell every two computations apart. With
    DeadFlagsVisible this says exactly when flag writes can be dropped. */
module DeadFlagsDropped {
  import opened Ir
  import opened DeadFlags
  import opened DeadFlagsVisible
  import opened DeadFlagsFree

  // ---------------------------------------------------------------------------------------------
  // Different effects stay different
  // ---------------------------------------------------------------------------------------------

  lemma NodeHistories(g: seq<Node>, inOrder: bool, p: Packet, q: Packet, id: nat, entryX: Flags, entryY: Flags,
                      x: Progress, y: Progress)
    requires id < |g| && Thinned(g, p, q) && (id in p.actions ==> IsAction(g[id]))
    requires History(x.rest) != History(y.rest)
    ensures History(ExecNode(Free(inOrder), g, p, entryX, id, x).rest)
         != History(ExecNode(Free(inOrder), g, q, entryY, id, y).rest)
  {
    if id in q.actions && !IsFlagWrite(g[id]) { ActApart(inOrder, p.first, g[id], x, y); }
  }

  lemma {:induction false} RestHistories(g: seq<Node>, inOrder: bool, p: Packet, q: Packet, id: nat,
                                         entryX: Flags, entryY: Flags, x: Progress, y: Progress)
    requires PacketOk(g, p) && Thinned(g, p, q) && History(x.rest) != History(y.rest)
    ensures History(ExecFrom(Free(inOrder), g, p, entryX, id, x).rest)
         != History(ExecFrom(Free(inOrder), g, q, entryY, id, y).rest)
    decreases p.end - id
  {
    if id < p.end {
      NodeHistories(g, inOrder, p, q, id, entryX, entryY, x, y);
      RestHistories(g, inOrder, p, q, id + 1, entryX, entryY, ExecNode(Free(inOrder), g, p, entryX, id, x),
                    ExecNode(Free(inOrder), g, q, entryY, id, y));
    }
  }

  // ---------------------------------------------------------------------------------------------
  // Part of a packet
  // ---------------------------------------------------------------------------------------------

  /** Nodes id, id + 1, ... up to, but not including, upto. */
  function Reach(m: Meaning, g: seq<Node>, p: Packet, entry: Flags, id: nat, upto: nat, s: Progress): Progress
    requires upto <= |g|
    decreases upto - id
  {
    if id >= upto then s else Reach(m, g, p, entry, id + 1, upto, ExecNode(m, g, p, entry, id, s))
  }

  lemma {:induction false} ReachThenRest(m: Meaning, g: seq<Node>, p: Packet, entry: Flags, id: nat, upto: nat,
                                         s: Progress)
    requires id <= upto <= p.end <= |g|
    ensures ExecFrom(m, g, p, entry, id, s) == ExecFrom(m, g, p, entry, upto, Reach(m, g, p, entry, id, upto, s))
    decreases upto - id
  {
    if id < upto { ReachThenRest(m, g, p, entry, id + 1, upto, ExecNode(m, g, p, entry, id, s)); }
  }

  lemma {:induction false} ReachGrows(m: Meaning, g: seq<Node>, p: Packet, entry: Flags, id: nat, upto: nat,
                                      s: Progress)
    requires id <= upto <= |g|
    ensures var s' := Reach(m, g, p, entry, id, upto, s); s.env <= s'.env && |s'.env| == |s.env| + upto - id
    decreases upto - id
  {
    if id < upto { ReachGrows(m, g, p, entry, id + 1, upto, ExecNode(m, g, p, entry, id, s)); }
  }

  // ---------------------------------------------------------------------------------------------
  // Values of one's own
  // ---------------------------------------------------------------------------------------------

  /** Action w is left in the chunk. */
  predicate Survives(qs: seq<Packet>, w: nat) {
    exists k :: 0 <= k < |qs| && w in qs[k].actions
  }

  predicate EffectLeft(g: seq<Node>, qs: seq<Packet>, e: nat) {
    e < |g| && !IsFlagWrite(g[e]) && Survives(qs, e)
  }

  /** Some action that is not a flag write is numbered from lo up to hi. */
  predicate EffectBetween(g: seq<Node>, qs: seq<Packet>, lo: nat, hi: nat) {
    exists e :: lo <= e < hi && EffectLeft(g, qs, e)
  }

  /** Flag write u writes what an operation computes. */
  predicate Source(g: seq<Node>, u: nat) {
    u < |g| && IsFlagWrite(g[u]) && g[u].value.owner < |g| && Computes(g[g[u].value.owner])
  }

  /** The port is the same port of the same operation as the one u takes its value from, and there is no effect between
      the two. */
  predicate Alike(g: seq<Node>, qs: seq<Packet>, u: nat, p: Port)
    requires Source(g, u)
  {
    && p.kind == g[u].value.kind && p.owner < |g| && Computes(g[p.owner])
    && g[p.owner].op == g[g[u].value.owner].op && !EffectBetween(g, qs, p.owner, g[u].value.owner)
  }

  /** No flag write that is left before u may write the value that u writes. */
  predicate OwnValue(g: seq<Node>, qs: seq<Packet>, u: nat) {
    && Source(g, u)
    && forall w :: 0 <= w < u && IsFlagWrite(g[w]) && Survives(qs, w) ==> !Alike(g, qs, u, g[w].value)
  }

  /** A value that the port u takes its value from can give at history h or later. */
  ghost predicate Given(g: seq<Node>, u: nat, x: int, h: nat)
    requires Source(g, u)
  {
    exists n: nat, args: seq<int> :: n >= h && x == Tag(g[u].value.kind, g[g[u].value.owner].op, n, args)
  }

  lemma ZeroNotGiven(g: seq<Node>, u: nat, h: nat)
    requires Source(g, u)
    ensures !Given(g, u, 0, h)
  {
    forall n: nat, args: seq<int> ensures 0 != Tag(g[u].value.kind, g[g[u].value.owner].op, n, args) {
      TagInjective(g[u].value.kind, g[g[u].value.owner].op, n, args, Value, 0, 0, []);
    }
  }

  lemma OthersNotGiven(g: seq<Node>, u: nat, k: PortKind, op: nat, n: nat, args: seq<int>, h: nat)
    requires Source(g, u) && (k != g[u].value.kind || op != g[g[u].value.owner].op || n < h)
    ensures !Given(g, u, Tag(k, op, n, args), h)
  {
    var v := g[u].value;
    forall m: nat, other: seq<int> | m >= h ensures Tag(k, op, n, args) != Tag(v.kind, g[v.owner].op, m, other) {
      TagInjective(k, op, n, args, v.kind, g[v.owner].op, m, other);
    }
  }

  // ---------------------------------------------------------------------------------------------
  // Up to the operation whose value is written
  // ---------------------------------------------------------------------------------------------

  /** No value comes from the future, nor, once no effect is left before the operation, from the present. */
  ghost predicate ValueOk(g: seq<Node>, u: nat, x: int, h: nat, settled: bool)
    requires Source(g, u)
  {
    !Given(g, u, x, h + 1) && (settled ==> !Given(g, u, x, h))
  }

  ghost predicate FlagsOk(g: seq<Node>, u: nat, s: Flags, h: nat, settled: bool)
    requires Source(g, u)
  {
    forall f: FlagReg :: ValueOk(g, u, GetFlag(s, f), h, settled)
  }

  ghost predicate NodeValuesOk(g: seq<Node>, qs: seq<Packet>, u: nat, id: nat, p: Ports, h: nat, settled: bool)
    requires Source(g, u)
  {
    forall k: PortKind :: ValueOk(g, u, PortValue(p, k), h, settled && !Alike(g, qs, u, Port(id, k)))
  }

  ghost predicate EnvOk(g: seq<Node>, qs: seq<Packet>, u: nat, first: nat, env: seq<Ports>, h: nat, settled: bool)
    requires Source(g, u)
  {
    forall n :: 0 <= n < |env| ==> NodeValuesOk(g, qs, u, first + n, env[n], h, settled)
  }

  predicate Settled(g: seq<Node>, qs: seq<Packet>, u: nat, t: nat)
    requires Source(g, u)
  {
    !EffectBetween(g, qs, t, g[u].value.owner)
  }

  ghost predicate BeforeOk(g: seq<Node>, qs: seq<Packet>, u: nat, first: nat, t: nat, entry: Flags, y: Progress)
    requires Source(g, u)
  {
    var h, settled := History(y.rest), Settled(g, qs, u, t);
    FlagsOk(g, u, y.flags, h, settled) && FlagsOk(g, u, entry, h, settled) && EnvOk(g, qs, u, first, y.env, h, settled)
  }

  /** An effect makes the present past. */
  lemma LaterOk(g: seq<Node>, u: nat, x: int, h: nat, settled: bool, h': nat, settled': bool)
    requires Source(g, u) && ValueOk(g, u, x, h, settled) && h' > h
    ensures ValueOk(g, u, x, h', settled')
  {
  }

  lemma NodeIsOk(g: seq<Node>, qs: seq<Packet>, u: nat, inOrder: bool, first: nat, id: nat, entry: Flags, y: Progress)
    requires Source(g, u) && id < |g| && BeforeOk(g, qs, u, first, id, entry, y)
    ensures NodeValuesOk(g, qs, u, id, NodePorts(Free(inOrder), first, g[id], entry, y), History(y.rest),
                         Settled(g, qs, u, id))
  {
    var n, h := g[id], History(y.rest);
    ZeroNotGiven(g, u, h);
    ZeroNotGiven(g, u, h + 1);
    if Computes(n) {
      var args := ArgValues(first, y.env, n.args);
      forall k: PortKind
        ensures ValueOk(g, u, PortValue(Free(inOrder).compute(n.op, args, y.rest), k), h,
                        Settled(g, qs, u, id) && !Alike(g, qs, u, Port(id, k)))
      {
        FreePort(inOrder, k, n.op, args, y.rest);
        OthersNotGiven(g, u, k, n.op, h, args, h + 1);
        if Settled(g, qs, u, id) && !Alike(g, qs, u, Port(id, k)) { OthersNotGiven(g, u, k, n.op, h, args, h); }
      }
    }
  }

  lemma OperandIsOk(g: seq<Node>, qs: seq<Packet>, u: nat, first: nat, p: Port, env: seq<Ports>, h: nat, settled: bool)
    requires Source(g, u) && EnvOk(g, qs, u, first, env, h, settled)
    ensures ValueOk(g, u, Operand(first, env, p), h, settled && !Alike(g, qs, u, p))
  {
    ZeroNotGiven(g, u, h);
    ZeroNotGiven(g, u, h + 1);
    if first <= p.owner < first + |env| {
      assert NodeValuesOk(g, qs, u, first + (p.owner - first), env[p.owner - first], h, settled);
      assert Port(p.owner, p.kind) == p;
    }
  }

  /** A flag write that is left. */
  lemma WriteIsOk(g: seq<Node>, qs: seq<Packet>, u: nat, first: nat, w: nat, s: Flags, env: seq<Ports>, h: nat,
                  settled: bool)
    requires OwnValue(g, qs, u) && w < u && IsFlagWrite(g[w]) && Survives(qs, w)
    requires FlagsOk(g, u, s, h, settled) && EnvOk(g, qs, u, first, env, h, settled)
    ensures FlagsOk(g, u, SetFlag(s, g[w].reg.flag, Operand(first, env, g[w].value)), h, settled)
  {
    var a := Operand(first, env, g[w].value);
    OperandIsOk(g, qs, u, first, g[w].value, env, h, settled);
    forall f: FlagReg ensures ValueOk(g, u, GetFlag(SetFlag(s, g[w].reg.flag, a), f), h, settled) {
      SetGetFlag(s, g[w].reg.flag, a, f);
    }
  }

  /** In the packet q of the chunk, the actions left are those on its list. */
  predicate Owns(qs: seq<Packet>, q: Packet) {
    forall id :: q.first <= id < q.end ==> (id in q.actions <==> Survives(qs, id))
  }

  lemma PacketOwns(g: seq<Node>, ps: seq<Packet>, qs: seq<Packet>, i: nat)
    requires ChunkOk(g, ps) && ChunkThinned(g, ps, qs) && i < |qs|
    ensures Owns(qs, qs[i])
  {
    assert PacketOk(g, ps[i]) && Thinned(g, ps[i], qs[i]);
    forall id, k | qs[i].first <= id < qs[i].end && 0 <= k < |qs| && id in qs[k].actions ensures k == i {
      assert PacketOk(g, ps[k]) && Thinned(g, ps[k], qs[k]);
    }
  }

  /** A node that is left as an effect. */
  lemma EffectStep(g: seq<Node>, qs: seq<Packet>, u: nat, inOrder: bool, q: Packet, id: nat, entry: Flags, y: Progress)
    requires Source(g, u) && id < |g| && q.first <= id && |y.env| == id - q.first
    requires id in q.actions && IsAction(g[id]) && !IsFlagWrite(g[id]) && BeforeOk(g, qs, u, q.first, id, entry, y)
    ensures BeforeOk(g, qs, u, q.first, id + 1, entry, ExecNode(Free(inOrder), g, q, entry, id, y))
  {
    NodeIsOk(g, qs, u, inOrder, q.first, id, entry, y);
    var n, y' := g[id], ExecNode(Free(inOrder), g, q, entry, id, y);
    var h, h', s, s' := History(y.rest), History(y'.rest), Settled(g, qs, u, id), Settled(g, qs, u, id + 1);
    LoggedGrows(y.rest, ArgValues(q.first, y.env, Operands(n)));
    assert n.WriteReg? ==> ArgValues(q.first, y.env, Operands(n)) == [Operand(q.first, y.env, n.value)];
    assert h' > h && y'.flags == y.flags;
    forall f: FlagReg ensures ValueOk(g, u, GetFlag(y.flags, f), h', s') && ValueOk(g, u, GetFlag(entry, f), h', s') {
      LaterOk(g, u, GetFlag(y.flags, f), h, s, h', s');
      LaterOk(g, u, GetFlag(entry, f), h, s, h', s');
    }
    forall i | 0 <= i < |y'.env| ensures NodeValuesOk(g, qs, u, q.first + i, y'.env[i], h', s') {
      assert NodeValuesOk(g, qs, u, q.first + i, y'.env[i], h, s);
      forall k: PortKind
        ensures ValueOk(g, u, PortValue(y'.env[i], k), h', s' && !Alike(g, qs, u, Port(q.first + i, k)))
      {
        LaterOk(g, u, PortValue(y'.env[i], k), h, s && !Alike(g, qs, u, Port(q.first + i, k)), h',
                s' && !Alike(g, qs, u, Port(q.first + i, k)));
      }
    }
  }

  /** Any other node. */
  lemma QuietStep(g: seq<Node>, qs: seq<Packet>, u: nat, inOrder: bool, q: Packet, id: nat, entry: Flags, y: Progress)
    requires OwnValue(g, qs, u) && id < u && q.first <= id && |y.env| == id - q.first
    requires (id in q.actions <==> Survives(qs, id)) && (id in q.actions ==> IsFlagWrite(g[id]))
    requires BeforeOk(g, qs, u, q.first, id, entry, y)
    ensures BeforeOk(g, qs, u, q.first, id + 1, entry, ExecNode(Free(inOrder), g, q, entry, id, y))
  {
    NodeIsOk(g, qs, u, inOrder, q.first, id, entry, y);
    var h, s, o := History(y.rest), Settled(g, qs, u, id), g[u].value.owner;
    assert !EffectLeft(g, qs, id);
    if EffectBetween(g, qs, id, o) {
      var e :| id <= e < o && EffectLeft(g, qs, e);
      assert id + 1 <= e;
    }
    assert Settled(g, qs, u, id + 1) == s by {
      if e :| id + 1 <= e < o && EffectLeft(g, qs, e) { assert id <= e; }
    }
    if id in q.actions { WriteIsOk(g, qs, u, q.first, id, y.flags, y.env, h, s); }
  }

  lemma StepBefore(g: seq<Node>, qs: seq<Packet>, u: nat, inOrder: bool, q: Packet, id: nat, entry: Flags, y: Progress)
    requires OwnValue(g, qs, u) && id < u && q.first <= id && |y.env| == id - q.first
    requires (id in q.actions <==> Survives(qs, id)) && (id in q.actions ==> IsAction(g[id]))
    requires BeforeOk(g, qs, u, q.first, id, entry, y)
    ensures BeforeOk(g, qs, u, q.first, id + 1, entry, ExecNode(Free(inOrder), g, q, entry, id, y))
  {
    if id in q.actions && !IsFlagWrite(g[id]) {
      EffectStep(g, qs, u, inOrder, q, id, entry, y);
    } else {
      QuietStep(g, qs, u, inOrder, q, id, entry, y);
    }
  }

  lemma {:induction false} ReachBefore(g: seq<Node>, qs: seq<Packet>, u: nat, inOrder: bool, q: Packet, id: nat,
                                       upto: nat, entry: Flags, y: Progress)
    requires OwnValue(g, qs, u) && q.first <= id <= upto <= q.end && upto <= u && |y.env| == id - q.first && Owns(qs, q)
    requires forall a :: a in q.actions ==> a < |g| && IsAction(g[a])
    requires BeforeOk(g, qs, u, q.first, id, entry, y)
    ensures BeforeOk(g, qs, u, q.first, upto, entry, Reach(Free(inOrder), g, q, entry, id, upto, y))
    decreases upto - id
  {
    if id < upto {
      StepBefore(g, qs, u, inOrder, q, id, entry, y);
      ReachBefore(g, qs, u, inOrder, q, id + 1, upto, entry, ExecNode(Free(inOrder), g, q, entry, id, y));
    }
  }

  // ---------------------------------------------------------------------------------------------
  // From there to the write
  // ---------------------------------------------------------------------------------------------

  /** In the thinned run nothing but alike ports holds a value given at history h or later. */
  ghost predicate AfterOk(g: seq<Node>, qs: seq<Packet>, u: nat, first: nat, entry: Flags, y: Progress, h: nat)
    requires Source(g, u)
  {
    && (forall f: FlagReg :: !Given(g, u, GetFlag(y.flags, f), h) && !Given(g, u, GetFlag(entry, f), h))
    && forall n, k: PortKind :: 0 <= n < |y.env| && !Alike(g, qs, u, Port(first + n, k)) ==>
         !Given(g, u, PortValue(y.env[n], k), h)
  }

  lemma BeforeToAfter(g: seq<Node>, qs: seq<Packet>, u: nat, first: nat, entry: Flags, y: Progress)
    requires Source(g, u) && BeforeOk(g, qs, u, first, g[u].value.owner, entry, y)
    ensures AfterOk(g, qs, u, first, entry, y, History(y.rest))
  {
    var h := History(y.rest);
    assert Settled(g, qs, u, g[u].value.owner);
    forall f: FlagReg ensures !Given(g, u, GetFlag(y.flags, f), h) && !Given(g, u, GetFlag(entry, f), h) {
      assert ValueOk(g, u, GetFlag(y.flags, f), h, true) && ValueOk(g, u, GetFlag(entry, f), h, true);
    }
    forall n, k: PortKind | 0 <= n < |y.env| && !Alike(g, qs, u, Port(first + n, k))
      ensures !Given(g, u, PortValue(y.env[n], k), h)
    {
      assert NodeValuesOk(g, qs, u, first + n, y.env[n], h, true);
      assert ValueOk(g, u, PortValue(y.env[n], k), h, true);
    }
  }

  lemma NodeAfter(g: seq<Node>, qs: seq<Packet>, u: nat, inOrder: bool, first: nat, id: nat, entry: Flags, y: Progress,
                  h: nat)
    requires Source(g, u) && g[u].value.owner <= id < |g| && AfterOk(g, qs, u, first, entry, y, h)
    ensures forall k: PortKind :: !Alike(g, qs, u, Port(id, k)) ==>
              !Given(g, u, PortValue(NodePorts(Free(inOrder), first, g[id], entry, y), k), h)
  {
    var n := g[id];
    ZeroNotGiven(g, u, h);
    if Computes(n) {
      var args := ArgValues(first, y.env, n.args);
      forall k: PortKind | !Alike(g, qs, u, Port(id, k))
        ensures !Given(g, u, PortValue(Free(inOrder).compute(n.op, args, y.rest), k), h)
      {
        FreePort(inOrder, k, n.op, args, y.rest);
        OthersNotGiven(g, u, k, n.op, History(y.rest), args, h);
      }
    }
  }

  lemma StepAfter(g: seq<Node>, qs: seq<Packet>, u: nat, inOrder: bool, q: Packet, id: nat, entry: Flags, y: Progress,
                  h: nat)
    requires OwnValue(g, qs, u) && g[u].value.owner <= id < u && q.first <= id && |y.env| == id - q.first
    requires (id in q.actions ==> Survives(qs, id)) && AfterOk(g, qs, u, q.first, entry, y, h)
    ensures AfterOk(g, qs, u, q.first, entry, ExecNode(Free(inOrder), g, q, entry, id, y), h)
  {
    NodeAfter(g, qs, u, inOrder, q.first, id, entry, y, h);
    if id in q.actions && IsFlagWrite(g[id]) {
      var v := g[id].value;
      var a := Operand(q.first, y.env, v);
      ZeroNotGiven(g, u, h);
      assert Port(v.owner, v.kind) == v && !Alike(g, qs, u, v);
      assert !Given(g, u, a, h) by {
        if q.first <= v.owner < q.first + |y.env| {
          var n := v.owner - q.first;
          assert !Alike(g, qs, u, Port(q.first + n, v.kind));
        }
      }
      forall f: FlagReg ensures !Given(g, u, GetFlag(SetFlag(y.flags, g[id].reg.flag, a), f), h) {
        SetGetFlag(y.flags, g[id].reg.flag, a, f);
      }
    }
  }

  /** The port u takes its value from has been given one. */
  ghost predicate PortMade(g: seq<Node>, u: nat, first: nat, env: seq<Ports>, h: nat)
    requires Source(g, u)
  {
    && first <= g[u].value.owner < first + |env|
    && Given(g, u, Operand(first, env, g[u].value), h)
  }

  lemma PortIsMade(g: seq<Node>, u: nat, inOrder: bool, p: Packet, entry: Flags, x: Progress)
    requires Source(g, u) && p.first <= g[u].value.owner && |x.env| == g[u].value.owner - p.first
    ensures PortMade(g, u, p.first, ExecNode(Free(inOrder), g, p, entry, g[u].value.owner, x).env, History(x.rest))
  {
    var n := g[g[u].value.owner];
    FreePort(inOrder, g[u].value.kind, n.op, ArgValues(p.first, x.env, n.args), x.rest);
  }

  /** u is the last write dropped from packet p whose flag is wanted by what is left of p, q, and what follows. */
  ghost predicate LastDropped(g: seq<Node>, u: nat, inOrder: bool, p: Packet, q: Packet, out: set<FlagReg>) {
    && PacketOk(g, p) && Thinned(g, p, q) && Source(g, u) && u in p.actions && u !in q.actions
    && (forall v :: u < v && v in p.actions && v !in q.actions ==>
          g[v].reg.flag !in WantsFrom(g, q, inOrder, v + 1, out).live)
    && g[u].reg.flag in WantsFrom(g, q, inOrder, u + 1, out).live
  }

  /** The write itself: its flag holds a value the thinned run's does not, and is wanted. */
  lemma WriteShows(g: seq<Node>, qs: seq<Packet>, u: nat, inOrder: bool, p: Packet, q: Packet, out: set<FlagReg>,
                   entryX: Flags, entryY: Flags, x: Progress, y: Progress, h: nat)
    requires PortsOk(g) && LastDropped(g, u, inOrder, p, q, out)
    requires |x.env| == |y.env| == u - p.first
    requires AfterOk(g, qs, u, p.first, entryY, y, h) && PortMade(g, u, p.first, x.env, h)
    ensures var m := Free(inOrder);
            var x', y' := ExecFrom(m, g, p, entryX, u, x), ExecFrom(m, g, q, entryY, u, y);
            GuestsDiffer(out, Guest(x'.flags, x'.rest), Guest(y'.flags, y'.rest))
  {
    var m, f, w := Free(inOrder), g[u].reg.flag, WantsFrom(g, q, inOrder, u + 1, out);
    var x', y' := ExecNode(m, g, p, entryX, u, x), ExecNode(m, g, q, entryY, u, y);
    SetGetFlag(x.flags, f, Operand(p.first, x.env, g[u].value), f);
    assert Given(g, u, GetFlag(x'.flags, f), h) && !Given(g, u, GetFlag(y'.flags, f), h);
    assert FlagsDiffer(w.live, x'.flags, y'.flags);
    RestDiffers(g, inOrder, p, q, u + 1, out, entryX, entryY, x', y');
  }

  lemma {:induction false} ReachAfter(g: seq<Node>, qs: seq<Packet>, u: nat, inOrder: bool, q: Packet, id: nat,
                                      entry: Flags, y: Progress, h: nat)
    requires OwnValue(g, qs, u) && g[u].value.owner <= id <= u && u < q.end && Owns(qs, q)
    requires q.first <= id && |y.env| == id - q.first && AfterOk(g, qs, u, q.first, entry, y, h)
    ensures AfterOk(g, qs, u, q.first, entry, Reach(Free(inOrder), g, q, entry, id, u, y), h)
    decreases u - id
  {
    if id < u {
      StepAfter(g, qs, u, inOrder, q, id, entry, y, h);
      ReachAfter(g, qs, u, inOrder, q, id + 1, entry, ExecNode(Free(inOrder), g, q, entry, id, y), h);
    }
  }

  lemma PortStays(g: seq<Node>, u: nat, first: nat, env: seq<Ports>, env': seq<Ports>, h: nat)
    requires Source(g, u) && PortMade(g, u, first, env, h) && env <= env'
    ensures PortMade(g, u, first, env', h)
  {
  }

  /** From the operation on, while the effects have been the same. */
  lemma FromOperation(g: seq<Node>, qs: seq<Packet>, u: nat, inOrder: bool, p: Packet, q: Packet, out: set<FlagReg>,
                      entryX: Flags, entryY: Flags, x: Progress, y: Progress)
    requires PortsOk(g) && LastDropped(g, u, inOrder, p, q, out) && OwnValue(g, qs, u) && Owns(qs, q)
    requires p.first <= g[u].value.owner < u && |x.env| == |y.env| == g[u].value.owner - p.first
    requires History(x.rest) == History(y.rest) && BeforeOk(g, qs, u, p.first, g[u].value.owner, entryY, y)
    ensures var m, o := Free(inOrder), g[u].value.owner;
            var x', y' := ExecFrom(m, g, p, entryX, o, x), ExecFrom(m, g, q, entryY, o, y);
            GuestsDiffer(out, Guest(x'.flags, x'.rest), Guest(y'.flags, y'.rest))
  {
    var m, o, h := Free(inOrder), g[u].value.owner, History(y.rest);
    PortIsMade(g, u, inOrder, p, entryX, x);
    BeforeToAfter(g, qs, u, p.first, entryY, y);
    var x1, y1 := Reach(m, g, p, entryX, o, u, x), Reach(m, g, q, entryY, o, u, y);
    ReachAfter(g, qs, u, inOrder, q, o, entryY, y, h);
    ReachGrows(m, g, p, entryX, o, u, x);
    ReachGrows(m, g, q, entryY, o, u, y);
    ReachGrows(m, g, p, entryX, o + 1, u, ExecNode(m, g, p, entryX, o, x));
    PortStays(g, u, p.first, ExecNode(m, g, p, entryX, o, x).env, x1.env, h);
    ReachThenRest(m, g, p, entryX, o, u, x);
    ReachThenRest(m, g, q, entryY, o, u, y);
    WriteShows(g, qs, u, inOrder, p, q, out, entryX, entryY, x1, y1, h);
  }

  /** The packet that u was dropped from. */
  lemma OriginDiffers(g: seq<Node>, qs: seq<Packet>, u: nat, inOrder: bool, p: Packet, q: Packet, out: set<FlagReg>,
                      entryX: Flags, entryY: Flags, x: Progress, y: Progress)
    requires PortsOk(g) && LastDropped(g, u, inOrder, p, q, out) && OwnValue(g, qs, u) && Owns(qs, q)
    requires x.env == y.env == [] && BeforeOk(g, qs, u, p.first, p.first, entryY, y)
    ensures var m := Free(inOrder);
            var x', y' := ExecFrom(m, g, p, entryX, p.first, x), ExecFrom(m, g, q, entryY, p.first, y);
            GuestsDiffer(out, Guest(x'.flags, x'.rest), Guest(y'.flags, y'.rest))
  {
    var m, o := Free(inOrder), g[u].value.owner;
    assert NodeOk(g, p.first, u);
    var x1, y1 := Reach(m, g, p, entryX, p.first, o, x), Reach(m, g, q, entryY, p.first, o, y);
    ReachThenRest(m, g, p, entryX, p.first, o, x);
    ReachThenRest(m, g, q, entryY, p.first, o, y);
    ReachGrows(m, g, p, entryX, p.first, o, x);
    ReachGrows(m, g, q, entryY, p.first, o, y);
    if History(x1.rest) != History(y1.rest) {
      RestHistories(g, inOrder, p, q, o, entryX, entryY, x1, y1);
    } else {
      ReachBefore(g, qs, u, inOrder, q, p.first, o, entryY, y);
      FromOperation(g, qs, u, inOrder, p, q, out, entryX, entryY, x1, y1);
    }
  }

  // ---------------------------------------------------------------------------------------------
  // The whole chunk
  // ---------------------------------------------------------------------------------------------

  /** From packet i on no dropped write is visible: a difference there lasts to the end of the chunk. */
  lemma {:induction false} LaterDiffer(g: seq<Node>, inOrder: bool, ps: seq<Packet>, qs: seq<Packet>, i: nat,
                                       x: Guest, y: Guest)
    requires ChunkOk(g, ps) && PortsOk(g) && ChunkThinned(g, ps, qs) && i <= |ps|
    requires forall q :: q in qs ==> q.end <= |g|
    requires forall k, u :: i <= k && Dropped(ps, qs, k, u) ==> !Visible(g, qs, inOrder, k, u)
    requires GuestsDiffer(WantedAt(g, qs, inOrder, i), x, y)
    ensures forall p :: p in ps[i..] + qs[i..] ==> p.end <= |g|
    ensures ExecChunk(Free(inOrder), g, ps[i..], x) != ExecChunk(Free(inOrder), g, qs[i..], y)
    decreases |ps| - i
  {
    ThinnedEnds(g, ps, qs);
    if i < |ps| {
      var p, q, out := ps[i], qs[i], WantedAt(g, qs, inOrder, i + 1);
      assert PacketOk(g, p) && Thinned(g, p, q);
      forall u | u in p.actions && u !in q.actions ensures g[u].reg.flag !in WantsFrom(g, q, inOrder, u + 1, out).live {
        assert Dropped(ps, qs, i, u);
      }
      PacketDiffers(g, inOrder, p, q, out, x, y);
      LaterDiffer(g, inOrder, ps, qs, i + 1, ExecPacket(Free(inOrder), g, p, x), ExecPacket(Free(inOrder), g, q, y));
      assert ps[i..][1..] == ps[i + 1..] && qs[i..][1..] == qs[i + 1..];
    }
  }

  /** Between two packets nothing is executed. */
  lemma NothingBetween(g: seq<Node>, ps: seq<Packet>, qs: seq<Packet>, u: nat, i: nat)
    requires ChunkOk(g, ps) && ChunkThinned(g, ps, qs) && Source(g, u) && i + 1 < |qs|
    ensures Settled(g, qs, u, qs[i + 1].first) ==> Settled(g, qs, u, qs[i].end)
  {
    if e :| qs[i].end <= e < g[u].value.owner && EffectLeft(g, qs, e) {
      var k :| 0 <= k < |qs| && e in qs[k].actions;
      assert PacketOk(g, ps[k]) && Thinned(g, ps[k], qs[k]) && Thinned(g, ps[i], qs[i]) && PacketOk(g, ps[i]);
      assert Thinned(g, ps[i + 1], qs[i + 1]) && PacketOk(g, ps[i + 1]);
      assert qs[i + 1].first <= e;
    }
  }

  lemma LessSettled(g: seq<Node>, u: nat, s: Flags, h: nat, settled: bool, settled': bool)
    requires Source(g, u) && FlagsOk(g, u, s, h, settled) && (settled' ==> settled)
    ensures FlagsOk(g, u, s, h, settled')
  {
    forall f: FlagReg ensures ValueOk(g, u, GetFlag(s, f), h, settled') {
      assert ValueOk(g, u, GetFlag(s, f), h, settled);
    }
  }

  /** A whole packet before the one of u. */
  lemma PacketBefore(g: seq<Node>, inOrder: bool, ps: seq<Packet>, qs: seq<Packet>, i: nat, j: nat, u: nat, y: Guest)
    requires ChunkOk(g, ps) && ChunkThinned(g, ps, qs) && i < j < |ps| && qs[i].end <= |g|
    requires Dropped(ps, qs, j, u) && OwnValue(g, qs, u)
    requires FlagsOk(g, u, y.flags, History(y.rest), Settled(g, qs, u, qs[i].first))
    ensures var y' := ExecPacket(Free(inOrder), g, qs[i], y);
            FlagsOk(g, u, y'.flags, History(y'.rest), Settled(g, qs, u, qs[i + 1].first))
  {
    var q := qs[i];
    var y' := ExecPacket(Free(inOrder), g, q, y);
    assert PacketOk(g, ps[i]) && Thinned(g, ps[i], q) && PacketOk(g, ps[j]);
    PacketOwns(g, ps, qs, i);
    ReachBefore(g, qs, u, inOrder, q, q.first, q.end, y.flags, Progress(y.flags, y.rest, []));
    ReachThenRest(Free(inOrder), g, q, y.flags, q.first, q.end, Progress(y.flags, y.rest, []));
    NothingBetween(g, ps, qs, u, i);
    LessSettled(g, u, y'.flags, History(y'.rest), Settled(g, qs, u, q.end), Settled(g, qs, u, qs[i + 1].first));
  }

  /** Write u, dropped from packet j, is the last dropped write that is visible in what is left. */
  ghost predicate LastIs(g: seq<Node>, inOrder: bool, ps: seq<Packet>, qs: seq<Packet>, j: nat, u: nat)
    requires forall q :: q in qs ==> q.end <= |g|
  {
    && Dropped(ps, qs, j, u) && Visible(g, qs, inOrder, j, u)
    && forall k, v: nat :: Dropped(ps, qs, k, v) && Visible(g, qs, inOrder, k, v) ==> v <= u
  }

  lemma NoneLater(g: seq<Node>, inOrder: bool, ps: seq<Packet>, qs: seq<Packet>, j: nat, u: nat)
    requires ChunkOk(g, ps) && (forall q :: q in qs ==> q.end <= |g|) && LastIs(g, inOrder, ps, qs, j, u)
    ensures forall k, v :: j + 1 <= k && Dropped(ps, qs, k, v) ==> !Visible(g, qs, inOrder, k, v)
  {
    forall k, v | j + 1 <= k && Dropped(ps, qs, k, v) ensures !Visible(g, qs, inOrder, k, v) {
      assert PacketOk(g, ps[j]) && PacketOk(g, ps[k]) && ps[j].end <= ps[k].first;
    }
  }

  lemma ChunkStep(m: Meaning, g: seq<Node>, ps: seq<Packet>, i: nat, x: Guest)
    requires i < |ps| && forall p :: p in ps ==> p.end <= |g|
    ensures forall p :: p in ps[i..] ==> p.end <= |g|
    ensures ExecChunk(m, g, ps[i..], x) == ExecChunk(m, g, ps[i + 1..], ExecPacket(m, g, ps[i], x))
  {
    assert ps[i..][1..] == ps[i + 1..];
  }

  lemma LastPacket(g: seq<Node>, inOrder: bool, ps: seq<Packet>, qs: seq<Packet>, j: nat, u: nat, x: Guest, y: Guest)
    requires ChunkOk(g, ps) && PortsOk(g) && ChunkThinned(g, ps, qs) && j < |ps| && forall q :: q in qs ==> q.end <= |g|
    requires LastIs(g, inOrder, ps, qs, j, u) && OwnValue(g, qs, u)
    requires FlagsOk(g, u, y.flags, History(y.rest), Settled(g, qs, u, qs[j].first))
    ensures ps[j].end <= |g|
    ensures GuestsDiffer(WantedAt(g, qs, inOrder, j + 1),
                         ExecPacket(Free(inOrder), g, ps[j], x), ExecPacket(Free(inOrder), g, qs[j], y))
  {
    var p, q, out := ps[j], qs[j], WantedAt(g, qs, inOrder, j + 1);
    assert PacketOk(g, p) && Thinned(g, p, q) && NodeOk(g, p.first, u);
    PacketOwns(g, ps, qs, j);
    forall v | u < v && v in p.actions && v !in q.actions
      ensures g[v].reg.flag !in WantsFrom(g, q, inOrder, v + 1, out).live
    {
      assert Dropped(ps, qs, j, v);
    }
    OriginDiffers(g, qs, u, inOrder, p, q, out, x.flags, y.flags, Progress(x.flags, x.rest, []),
                  Progress(y.flags, y.rest, []));
  }

  /** Up to packet j, from which u was dropped. */
  lemma {:induction false} EarlierClean(g: seq<Node>, inOrder: bool, ps: seq<Packet>, qs: seq<Packet>, i: nat,
                                        j: nat, u: nat, x: Guest, y: Guest)
    requires ChunkOk(g, ps) && PortsOk(g) && ChunkThinned(g, ps, qs) && i <= j < |ps|
    requires forall q :: q in ps + qs ==> q.end <= |g|
    requires LastIs(g, inOrder, ps, qs, j, u) && OwnValue(g, qs, u)
    requires FlagsOk(g, u, y.flags, History(y.rest), Settled(g, qs, u, qs[i].first))
    ensures forall p :: p in ps[i..] + qs[i..] ==> p.end <= |g|
    ensures ExecChunk(Free(inOrder), g, ps[i..], x) != ExecChunk(Free(inOrder), g, qs[i..], y)
    decreases j - i
  {
    ChunkStep(Free(inOrder), g, ps, i, x);
    ChunkStep(Free(inOrder), g, qs, i, y);
    var x', y' := ExecPacket(Free(inOrder), g, ps[i], x), ExecPacket(Free(inOrder), g, qs[i], y);
    if i < j {
      PacketBefore(g, inOrder, ps, qs, i, j, u, y);
      EarlierClean(g, inOrder, ps, qs, i + 1, j, u, x', y');
    } else {
      LastPacket(g, inOrder, ps, qs, j, u, x, y);
      NoneLater(g, inOrder, ps, qs, j, u);
      LaterDiffer(g, inOrder, ps, qs, j + 1, x', y');
    }
  }

  /** If a visible write was dropped, there is a last one. */
  lemma {:induction false} LastVisible(g: seq<Node>, ps: seq<Packet>, qs: seq<Packet>, inOrder: bool, k: nat, v: nat)
    returns (j: nat, u: nat)
    requires (forall q :: q in qs ==> q.end <= |g|) && Dropped(ps, qs, k, v) && Visible(g, qs, inOrder, k, v)
    ensures LastIs(g, inOrder, ps, qs, j, u)
    decreases |g| - v
  {
    if k', v': nat :| Dropped(ps, qs, k', v') && Visible(g, qs, inOrder, k', v') && v' > v {
      j, u := LastVisible(g, ps, qs, inOrder, k', v');
    } else {
      j, u := k, v;
    }
  }

  const CLEAR: Guest := Guest(Flags(0, 0, 0, 0, 0), Rest(map[], map[]))

  /** Dropping a visible write changes how the chunk ends, under operations that tell everything apart. */
  lemma DroppingVisibleShows(g: seq<Node>, ps: seq<Packet>, qs: seq<Packet>, inOrder: bool, k: nat, v: nat)
    requires ChunkOk(g, ps) && PortsOk(g) && ChunkThinned(g, ps, qs) && forall q :: q in ps + qs ==> q.end <= |g|
    requires forall i, u :: Dropped(ps, qs, i, u) && Visible(g, ps, inOrder, i, u) ==> OwnValue(g, qs, u)
    requires Dropped(ps, qs, k, v) && Visible(g, ps, inOrder, k, v)
    ensures ExecChunk(Free(inOrder), g, ps, CLEAR) != ExecChunk(Free(inOrder), g, qs, CLEAR)
  {
    if forall i, u :: Dropped(ps, qs, i, u) ==> !Visible(g, qs, inOrder, i, u) {
      SameVisible(g, ps, qs, qs, inOrder, k, v);
    }
    var i0, u0 :| Dropped(ps, qs, i0, u0) && Visible(g, qs, inOrder, i0, u0);
    var j, u := LastVisible(g, ps, qs, inOrder, i0, u0);
    assert Visible(g, ps, inOrder, j, u) by { LastInBoth(g, ps, qs, inOrder, j, u); }
    assert OwnValue(g, qs, u);
    forall f: FlagReg
      ensures ValueOk(g, u, GetFlag(CLEAR.flags, f), History(CLEAR.rest), Settled(g, qs, u, qs[0].first))
    {
      ZeroNotGiven(g, u, 0);
      ZeroNotGiven(g, u, 1);
    }
    EarlierClean(g, inOrder, ps, qs, 0, j, u, CLEAR, CLEAR);
    assert ps[0..] == ps && qs[0..] == qs;
  }

  /** The last dropped write visible in the thinned chunk is visible in the original. */
  lemma LastInBoth(g: seq<Node>, ps: seq<Packet>, qs: seq<Packet>, inOrder: bool, j: nat, u: nat)
    requires ChunkOk(g, ps) && ChunkThinned(g, ps, qs) && forall q :: q in ps + qs ==> q.end <= |g|
    requires LastIs(g, inOrder, ps, qs, j, u)
    ensures Visible(g, ps, inOrder, j, u)
  {
    forall k: nat, v: nat | Dropped(ps, qs, k, v) && After(j, u, k, v) ensures !Visible(g, qs, inOrder, k, v) {
      assert PacketOk(g, ps[j]) && PacketOk(g, ps[k]);
    }
    SameVisible(g, ps, qs, qs, inOrder, j, u);
  }

  /** Exactly when flag writes can be dropped from a chunk: its meaning is kept for all operations and all initial
      states if and only if no dropped write is visible in it, provided that those that are write values of their
      own. */
  lemma DroppingIsRightExactly(g: seq<Node>, ps: seq<Packet>, qs: seq<Packet>, inOrder: bool)
    requires ChunkOk(g, ps) && PortsOk(g) && ChunkThinned(g, ps, qs) && forall q :: q in ps + qs ==> q.end <= |g|
    requires forall i, u :: Dropped(ps, qs, i, u) && Visible(g, ps, inOrder, i, u) ==> OwnValue(g, qs, u)
    ensures (forall m: Meaning, s: Guest :: m.inOrder == inOrder ==> ExecChunk(m, g, ps, s) == ExecChunk(m, g, qs, s))
       <==> NothingVisibleDropped(g, ps, qs, inOrder)
  {
    if NothingVisibleDropped(g, ps, qs, inOrder) {
      forall m: Meaning, s: Guest | m.inOrder == inOrder ensures ExecChunk(m, g, ps, s) == ExecChunk(m, g, qs, s) {
        DroppingIsSound(m, g, ps, qs, s);
      }
    } else {
      var i, u :| Dropped(ps, qs, i, u) && Visible(g, ps, inOrder, i, u);
      DroppingVisibleShows(g, ps, qs, inOrder, i, u);
      assert Free(inOrder).inOrder == inOrder;
    }
  }
}
