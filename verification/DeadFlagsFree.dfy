/** Operations that tell every two computations apart, and every two histories of effects.

    Each result is a number that encodes the port, the operation, the effects so far and the arguments. Under such
    operations a difference in anything wanted lasts to the end of the chunk. */
module DeadFlagsFree {
  import opened Ir
  import opened DeadFlags
  import opened DeadFlagsVisible

  // ---------------------------------------------------------------------------------------------
  // Sequences as numbers
  // ---------------------------------------------------------------------------------------------

  function Code(x: int): nat {
    if x >= 0 then 2 * x else -2 * x - 1
  }

  function Pair(a: nat, b: nat): nat {
    if a == 0 then 2 * b + 1 else 2 * Pair(a - 1, b)
  }

  lemma {:induction false} PairInjective(a: nat, b: nat, c: nat, d: nat)
    requires Pair(a, b) == Pair(c, d)
    ensures a == c && b == d
    decreases a
  {
    if a > 0 && c > 0 { PairInjective(a - 1, b, c - 1, d); }
  }

  lemma {:induction false} PairPositive(a: nat, b: nat)
    ensures Pair(a, b) > 0
    decreases a
  {
    if a > 0 { PairPositive(a - 1, b); }
  }

  function Enc(s: seq<int>): nat {
    if s == [] then 0 else Pair(Code(s[0]), Enc(s[1..]))
  }

  lemma {:induction false} EncInjective(s: seq<int>, t: seq<int>)
    requires Enc(s) == Enc(t)
    ensures s == t
    decreases |s|
  {
    if s != [] { PairPositive(Code(s[0]), Enc(s[1..])); }
    if t != [] { PairPositive(Code(t[0]), Enc(t[1..])); }
    if s != [] && t != [] {
      PairInjective(Code(s[0]), Enc(s[1..]), Code(t[0]), Enc(t[1..]));
      EncInjective(s[1..], t[1..]);
      assert s == [s[0]] + s[1..] && t == [t[0]] + t[1..];
    }
  }

  // ---------------------------------------------------------------------------------------------
  // Operations that tell everything apart
  // ---------------------------------------------------------------------------------------------

  function KindNo(k: PortKind): int {
    match k
    case Value => 0
    case Zero => 1
    case Negative => 2
    case Overflow => 3
    case Carry => 4
    case OperationValue => 5
  }

  /** What a port of an operation gives: a number for the port, the operation, the effects so far and its arguments. */
  function Tag(k: PortKind, op: nat, h: nat, args: seq<int>): int {
    Enc([KindNo(k), op, h] + args)
  }

  lemma TagInjective(k: PortKind, op: nat, h: nat, args: seq<int>, k': PortKind, op': nat, h': nat, args': seq<int>)
    ensures Tag(k, op, h, args) > 0
    ensures Tag(k, op, h, args) == Tag(k', op', h', args') ==> k == k' && op == op' && h == h' && args == args'
  {
    var s, t := [KindNo(k), op, h] + args, [KindNo(k'), op', h'] + args';
    PairPositive(Code(s[0]), Enc(s[1..]));
    if Enc(s) == Enc(t) {
      EncInjective(s, t);
      assert s[0] == t[0] && s[1] == t[1] && s[2] == t[2] && s[3..] == args && t[3..] == args';
    }
  }

  /** All effects so far, as one number. */
  function History(r: Rest): nat {
    if 0 in r.memory && r.memory[0] >= 0 then r.memory[0] else 0
  }

  function Logged(r: Rest, entry: seq<int>): Rest {
    Rest(map[], map[0 := Enc([History(r)] + entry)])
  }

  lemma LoggedInjective(r: Rest, r': Rest, e: seq<int>, e': seq<int>)
    ensures History(Logged(r, e)) == History(Logged(r', e')) ==> History(r) == History(r') && e == e'
  {
    var s, t := [History(r)] + e, [History(r')] + e';
    if Enc(s) == Enc(t) {
      EncInjective(s, t);
      assert s[0] == t[0] && s[1..] == e && t[1..] == e';
    }
  }

  lemma {:induction false} PairGrows(a: nat, b: nat)
    ensures Pair(a, b) > a
    decreases a
  {
    if a > 0 { PairGrows(a - 1, b); }
  }

  lemma LoggedGrows(r: Rest, e: seq<int>)
    ensures History(Logged(r, e)) > History(r)
  {
    var s := [History(r)] + e;
    PairGrows(Code(s[0]), Enc(s[1..]));
  }

  function Free(inOrder: bool): Meaning {
    Meaning(inOrder, (i: nat, r: Rest) => 0, (i: nat, v: int, r: Rest) => Logged(r, [v]),
            (op: nat, args: seq<int>, r: Rest) =>
              var h := History(r);
              Ports(Tag(Value, op, h, args), Tag(Zero, op, h, args), Tag(Negative, op, h, args),
                    Tag(Overflow, op, h, args), Tag(Carry, op, h, args), Tag(OperationValue, op, h, args)),
            (op: nat, args: seq<int>, r: Rest) => Logged(r, args))
  }

  lemma FreePort(inOrder: bool, k: PortKind, op: nat, args: seq<int>, r: Rest)
    ensures PortValue(Free(inOrder).compute(op, args, r), k) == Tag(k, op, History(r), args)
  {
  }

  // ---------------------------------------------------------------------------------------------
  // Differences persist
  // ---------------------------------------------------------------------------------------------

  predicate Computes(n: Node) {
    n.Arith? || n.Pure? || n.Atomic? || n.InternalCall?
  }

  /** A register read has only its value port. */
  predicate PortsOk(g: seq<Node>) {
    forall id :: 0 <= id < |g| ==> PortsOkAt(g, id)
  }

  predicate PortsOkAt(g: seq<Node>, id: nat)
    requires id < |g|
  {
    forall p :: p in Operands(g[id]) ==>
        p.owner < |g| && (Computes(g[p.owner]) || (g[p.owner].ReadReg? && p.kind.Value?))
  }

  /** Two outcomes of node n that whoever uses it can tell apart. */
  ghost predicate PortsDiffer(n: Node, x: Ports, y: Ports) {
    if n.ReadReg? then x.value != y.value else forall k :: PortValue(x, k) != PortValue(y, k)
  }

  ghost predicate NodeDiffers(g: seq<Node>, first: nat, n: nat, x: seq<Ports>, y: seq<Ports>) {
    n < |g| && first <= n < first + |x| == first + |y| && PortsDiffer(g[n], x[n - first], y[n - first])
  }

  ghost predicate FlagsDiffer(on: set<FlagReg>, x: Flags, y: Flags) {
    exists f: FlagReg :: f in on && GetFlag(x, f) != GetFlag(y, f)
  }

  /** Two runs that differ in something wanted, or in their effects. */
  ghost predicate Differ(g: seq<Node>, first: nat, w: Wants, entryX: Flags, entryY: Flags, x: Progress, y: Progress) {
    || History(x.rest) != History(y.rest)
    || FlagsDiffer(w.live, x.flags, y.flags) || FlagsDiffer(w.entry, entryX, entryY)
    || exists n :: n in w.nodes && NodeDiffers(g, first, n, x.env, y.env)
  }

  /** Arguments differ when one of their nodes does. */
  lemma ArgsDiffer(g: seq<Node>, first: nat, id: nat, args: seq<Port>, n: nat, x: seq<Ports>, y: seq<Ports>)
    requires id < |g| && PortsOkAt(g, id) && args == Operands(g[id]) && n in Owners(args)
    requires NodeDiffers(g, first, n, x, y)
    ensures ArgValues(first, x, args) != ArgValues(first, y, args)
  {
    var p :| p in args && p.owner == n;
    OperandDiffers(g, first, p, x, y);
    var i :| 0 <= i < |args| && args[i] == p;
    assert ArgValues(first, x, args)[i] == Operand(first, x, p) && ArgValues(first, y, args)[i] == Operand(first, y, p);
  }

  lemma OperandDiffers(g: seq<Node>, first: nat, p: Port, x: seq<Ports>, y: seq<Ports>)
    requires NodeDiffers(g, first, p.owner, x, y)
    requires Computes(g[p.owner]) || (g[p.owner].ReadReg? && p.kind.Value?)
    ensures Operand(first, x, p) != Operand(first, y, p)
  {
  }

  lemma ComputedApart(inOrder: bool, op: nat, a: seq<int>, b: seq<int>, r: Rest, r': Rest)
    requires a != b
    ensures forall k :: PortValue(Free(inOrder).compute(op, a, r), k) != PortValue(Free(inOrder).compute(op, b, r'), k)
  {
    forall k ensures PortValue(Free(inOrder).compute(op, a, r), k) != PortValue(Free(inOrder).compute(op, b, r'), k) {
      TagInjective(k, op, History(r), a, k, op, History(r'), b);
    }
  }

  /** An effect keeps histories apart, and separates them when its arguments differ. */
  lemma ActApart(inOrder: bool, first: nat, n: Node, x: Progress, y: Progress)
    requires IsAction(n) && !IsFlagWrite(n)
    requires History(x.rest) != History(y.rest) ||
                 ArgValues(first, x.env, Operands(n)) != ArgValues(first, y.env, Operands(n))
    ensures History(Act(Free(inOrder), first, n, x).rest) != History(Act(Free(inOrder), first, n, y).rest)
  {
    var a, b := ArgValues(first, x.env, Operands(n)), ArgValues(first, y.env, Operands(n));
    assert n.WriteReg? ==> a == [Operand(first, x.env, n.value)] && b == [Operand(first, y.env, n.value)];
    LoggedInjective(x.rest, y.rest, a, b);
  }

  /** Executing node id in both packets: what an action that is in both does to a difference. */
  lemma ActDiffers(g: seq<Node>, inOrder: bool, p: Packet, q: Packet, id: nat, after: Wants,
                   entryX: Flags, entryY: Flags, x: Progress, y: Progress)
    requires id < |g| && PortsOkAt(g, id) && id in p.actions && id in q.actions && IsAction(g[id])
    requires Differ(g, p.first, WantsAction(g, q, id, after), entryX, entryY, x, y) && |x.env| == |y.env|
    ensures Differ(g, p.first, after, entryX, entryY, Act(Free(inOrder), p.first, g[id], x),
                   Act(Free(inOrder), p.first, g[id], y))
  {
    var n, w, m := g[id], WantsAction(g, q, id, after), Free(inOrder);
    var x', y' := Act(m, p.first, n, x), Act(m, p.first, n, y);
    if IsFlagWrite(n) {
      WriteDiffers(g, inOrder, p.first, q, id, after, entryX, entryY, x, y);
    } else if History(x.rest) != History(y.rest) {
      ActApart(inOrder, p.first, n, x, y);
    } else if node :| node in w.nodes && NodeDiffers(g, p.first, node, x.env, y.env) {
      if node in after.nodes {
        assert NodeDiffers(g, p.first, node, x'.env, y'.env);
      } else {
        ArgsDiffer(g, p.first, id, Operands(n), node, x.env, y.env);
        ActApart(inOrder, p.first, n, x, y);
      }
    }
  }

  /** The same for a flag write. */
  lemma WriteDiffers(g: seq<Node>, inOrder: bool, first: nat, q: Packet, id: nat, after: Wants,
                     entryX: Flags, entryY: Flags, x: Progress, y: Progress)
    requires id < |g| && PortsOkAt(g, id) && id in q.actions && IsFlagWrite(g[id])
    requires Differ(g, first, WantsAction(g, q, id, after), entryX, entryY, x, y) && |x.env| == |y.env|
    ensures Differ(g, first, after, entryX, entryY, Act(Free(inOrder), first, g[id], x),
                   Act(Free(inOrder), first, g[id], y))
  {
    var n, w, f, m := g[id], WantsAction(g, q, id, after), g[id].reg.flag, Free(inOrder);
    var a, b := Operand(first, x.env, n.value), Operand(first, y.env, n.value);
    var x', y' := Act(m, first, n, x), Act(m, first, n, y);
    assert x'.flags == SetFlag(x.flags, f, a) && y'.flags == SetFlag(y.flags, f, b);
    if h: FlagReg :| h in w.live && GetFlag(x.flags, h) != GetFlag(y.flags, h) {
      SetGetFlag(x.flags, f, a, h);
      SetGetFlag(y.flags, f, b, h);
      assert h in after.live && GetFlag(x'.flags, h) != GetFlag(y'.flags, h);
    } else if node :| node in w.nodes && NodeDiffers(g, first, node, x.env, y.env) {
      if node in after.nodes {
        assert NodeDiffers(g, first, node, x'.env, y'.env);
      } else {
        ArgsDiffer(g, first, id, Operands(n), node, x.env, y.env);
        assert ArgValues(first, x.env, [n.value]) == [a] && ArgValues(first, y.env, [n.value]) == [b];
        SetGetFlag(x.flags, f, a, f);
        SetGetFlag(y.flags, f, b, f);
        assert f in after.live && GetFlag(x'.flags, f) != GetFlag(y'.flags, f);
      }
    }
  }

  /** What a wanted node's own value does to a difference: either it was wanted anyway, or the value differs. */
  lemma ValueDiffers(g: seq<Node>, inOrder: bool, first: nat, id: nat, after: Wants,
                     entryX: Flags, entryY: Flags, x: Progress, y: Progress)
    requires id < |g| && PortsOkAt(g, id) && |x.env| == |y.env|
    requires Differ(g, first, WantsValue(g, inOrder, id, after), entryX, entryY, x, y)
    ensures var m := Free(inOrder);
            || Differ(g, first, after, entryX, entryY, x, y)
            || (id in after.nodes
                && PortsDiffer(g[id], NodePorts(m, first, g[id], entryX, x), NodePorts(m, first, g[id], entryY, y)))
  {
    var n, w := g[id], WantsValue(g, inOrder, id, after);
    if History(x.rest) == History(y.rest) && id in after.nodes {
      if node :| node in w.nodes && NodeDiffers(g, first, node, x.env, y.env) {
        if node !in after.nodes {
          ArgsDiffer(g, first, id, n.args, node, x.env, y.env);
          ComputedApart(inOrder, n.op, ArgValues(first, x.env, n.args), ArgValues(first, y.env, n.args), x.rest,
                        y.rest);
        }
      } else if f: FlagReg :| f in w.live && GetFlag(x.flags, f) != GetFlag(y.flags, f) {
      } else {
        assert FlagsDiffer(w.entry, entryX, entryY);
      }
    }
  }

  /** A difference outlives the next node's values being recorded. */
  lemma EnvGrows(g: seq<Node>, first: nat, w: Wants, entryX: Flags, entryY: Flags, x: Progress, y: Progress,
                 a: Ports, b: Ports)
    requires Differ(g, first, w, entryX, entryY, x, y) && |x.env| == |y.env|
    ensures Differ(g, first, w, entryX, entryY, x.(env := x.env + [a]), y.(env := y.env + [b]))
  {
    var x', y' := x.(env := x.env + [a]), y.(env := y.env + [b]);
    if n :| n in w.nodes && NodeDiffers(g, first, n, x.env, y.env) {
      assert NodeDiffers(g, first, n, x'.env, y'.env);
    }
  }

  /** A dropped write of a flag nobody wants leaves a difference as it is. */
  lemma DroppedDiffers(g: seq<Node>, inOrder: bool, first: nat, id: nat, w: Wants, entryX: Flags, entryY: Flags,
                       x: Progress, y: Progress)
    requires id < |g| && IsFlagWrite(g[id]) && g[id].reg.flag !in w.live && Differ(g, first, w, entryX, entryY, x, y)
    ensures Differ(g, first, w, entryX, entryY, Act(Free(inOrder), first, g[id], x), y)
  {
    var f, a := g[id].reg.flag, Operand(first, x.env, g[id].value);
    var x' := Act(Free(inOrder), first, g[id], x);
    if h: FlagReg :| h in w.live && GetFlag(x.flags, h) != GetFlag(y.flags, h) {
      SetGetFlag(x.flags, f, a, h);
      assert GetFlag(x'.flags, h) != GetFlag(y.flags, h);
    }
  }

  /** One node: a difference in something wanted before it is one in something wanted after it. */
  lemma StepDiffers(g: seq<Node>, inOrder: bool, p: Packet, q: Packet, id: nat, after: Wants,
                    entryX: Flags, entryY: Flags, x: Progress, y: Progress)
    requires id < |g| && PortsOkAt(g, id) && Thinned(g, p, q) && p.first <= id && |x.env| == |y.env| == id - p.first
    requires (id in p.actions ==> IsAction(g[id]))
    requires (id in p.actions && id !in q.actions ==> g[id].reg.flag !in after.live)
    requires NodeOk(g, p.first, id)
    requires Differ(g, p.first, WantsNode(g, q, inOrder, id, after), entryX, entryY, x, y)
    ensures Differ(g, p.first, after, entryX, entryY,
                   ExecNode(Free(inOrder), g, p, entryX, id, x), ExecNode(Free(inOrder), g, q, entryY, id, y))
  {
    var m, acted := Free(inOrder), WantsAction(g, q, id, after);
    var a, b := NodePorts(m, p.first, g[id], entryX, x), NodePorts(m, p.first, g[id], entryY, y);
    var x1 := if id in p.actions then Act(m, p.first, g[id], x) else x;
    var y1 := if id in q.actions then Act(m, p.first, g[id], y) else y;
    ValueDiffers(g, inOrder, p.first, id, acted, entryX, entryY, x, y);
    if Differ(g, p.first, acted, entryX, entryY, x, y) {
      if id in q.actions {
        ActDiffers(g, inOrder, p, q, id, after, entryX, entryY, x, y);
      } else if id in p.actions {
        DroppedDiffers(g, inOrder, p.first, id, after, entryX, entryY, x, y);
      }
      EnvGrows(g, p.first, after, entryX, entryY, x1, y1, a, b);
    } else {
      OwnersBelow(g, p.first, id);
      assert NodeDiffers(g, p.first, id, x1.env + [a], y1.env + [b]);
    }
  }

  lemma OwnersBelow(g: seq<Node>, first: nat, id: nat)
    requires id < |g| && NodeOk(g, first, id)
    ensures id !in Owners(Operands(g[id]))
  {
  }

  ghost predicate GuestsDiffer(on: set<FlagReg>, x: Guest, y: Guest) {
    History(x.rest) != History(y.rest) || FlagsDiffer(on, x.flags, y.flags)
  }

  lemma {:induction false} RestDiffers(g: seq<Node>, inOrder: bool, p: Packet, q: Packet, id: nat, out: set<FlagReg>,
                                       entryX: Flags, entryY: Flags, x: Progress, y: Progress)
    requires PacketOk(g, p) && PortsOk(g) && Thinned(g, p, q) && p.first <= id <= p.end
    requires |x.env| == |y.env| == id - p.first
    requires forall u :: id <= u && u in p.actions && u !in q.actions ==>
               g[u].reg.flag !in WantsFrom(g, q, inOrder, u + 1, out).live
    requires Differ(g, p.first, WantsFrom(g, q, inOrder, id, out), entryX, entryY, x, y)
    ensures var m := Free(inOrder);
            var x', y' := ExecFrom(m, g, p, entryX, id, x), ExecFrom(m, g, q, entryY, id, y);
            GuestsDiffer(out, Guest(x'.flags, x'.rest), Guest(y'.flags, y'.rest))
    decreases p.end - id
  {
    if id < p.end {
      var m := Free(inOrder);
      assert NodeOk(g, p.first, id) && PortsOkAt(g, id);
      StepDiffers(g, inOrder, p, q, id, WantsFrom(g, q, inOrder, id + 1, out), entryX, entryY, x, y);
      RestDiffers(g, inOrder, p, q, id + 1, out, entryX, entryY,
                  ExecNode(m, g, p, entryX, id, x), ExecNode(m, g, q, entryY, id, y));
    }
  }

  /** A packet none of whose dropped writes is visible keeps a difference. */
  lemma PacketDiffers(g: seq<Node>, inOrder: bool, p: Packet, q: Packet, out: set<FlagReg>, x: Guest, y: Guest)
    requires PacketOk(g, p) && PortsOk(g) && Thinned(g, p, q)
    requires forall u :: u in p.actions && u !in q.actions ==>
                 g[u].reg.flag !in WantsFrom(g, q, inOrder, u + 1, out).live
    requires var w := WantsFrom(g, q, inOrder, q.first, out); GuestsDiffer(w.live + w.entry, x, y)
    ensures GuestsDiffer(out, ExecPacket(Free(inOrder), g, p, x), ExecPacket(Free(inOrder), g, q, y))
  {
    var w := WantsFrom(g, q, inOrder, q.first, out);
    var x0, y0 := Progress(x.flags, x.rest, []), Progress(y.flags, y.rest, []);
    if History(x.rest) == History(y.rest) {
      var f: FlagReg :| f in w.live + w.entry && GetFlag(x.flags, f) != GetFlag(y.flags, f);
      assert FlagsDiffer(w.live, x.flags, y.flags) || FlagsDiffer(w.entry, x.flags, y.flags);
    }
    RestDiffers(g, inOrder, p, q, p.first, out, x.flags, y.flags, x0, y0);
  }
}
