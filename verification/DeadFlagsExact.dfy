/** Exactly what dead flag elimination removes, what it leaves linked, and where its assumptions matter. */
module DeadFlagsExact {
  import opened Wrappers
  import opened Ir
  import opened DeadFlags

  // ---------------------------------------------------------------------------------------------
  // Which writes go, said without the pass
  // ---------------------------------------------------------------------------------------------

  /** Action w of packet i writes flag f. */
  predicate Writes(g: seq<Node>, packets: seq<Packet>, i: nat, w: nat, f: FlagReg) {
    i < |packets| && w in packets[i].actions && w < |g| && IsFlagWrite(g[w]) && g[w].reg.flag == f
  }

  /** No action numbered from <= u < to writes f (node numbers follow program order across the whole chunk). */
  ghost predicate NoWrite(g: seq<Node>, packets: seq<Packet>, from: nat, upto: nat, f: FlagReg) {
    forall k, u :: from <= u < upto ==> !Writes(g, packets, k, u, f)
  }

  /** The flag reads found while visiting packet i. */
  function FoundIn(g: seq<Node>, packets: seq<Packet>, i: nat): set<FlagReg>
    requires i < |packets| && forall p :: p in packets ==> Readable(g, p)
  {
    VisitPacket(g, packets[i], VisitChunkFrom(g, packets, i + 1)).visit.found
  }

  /** Actions that do not write f do not change what the pass knows about f. */
  lemma {:induction false} QuietActions(g: seq<Node>, packets: seq<Packet>, i: nat, from: nat, upto: nat, s: Pass,
                                        f: FlagReg)
    requires i < |packets| && PacketOk(g, packets[i]) && packets[i].first <= from <= upto
    requires NoWrite(g, packets, from, upto, f)
    ensures var x, y := VisitFrom(g, packets[i], from, s), VisitFrom(g, packets[i], upto, s);
            (f in x.live <==> f in y.live) && (f in x.last <==> f in y.last)
    decreases upto - from
  {
    if from < upto && from < packets[i].end {
      QuietActions(g, packets, i, from + 1, upto, s, f);
      assert !Writes(g, packets, i, from, f);
    }
  }

  /** Whole packets that do not write f pass on whether f was written later, and add their own reads of it. */
  lemma {:induction false} QuietPackets(g: seq<Node>, packets: seq<Packet>, i: nat, j: nat, f: FlagReg)
    requires ChunkOk(g, packets) && i <= j <= |packets|
    requires forall k, u :: i <= k < j ==> !Writes(g, packets, k, u, f)
    ensures var x, y := VisitChunkFrom(g, packets, i), VisitChunkFrom(g, packets, j);
            && (f in x.last <==> f in y.last)
            && (f in x.live <==> f in y.live || exists k :: i <= k < j && f in FoundIn(g, packets, k))
    decreases j - i
  {
    if i < j {
      QuietPackets(g, packets, i + 1, j, f);
      var b, p := VisitChunkFrom(g, packets, i + 1), packets[i];
      assert PacketOk(g, p);
      var s := Pass(Visit(b.seen, {}), b.live, b.last, []);
      QuietPacket(g, p, p.first, s, f, i, packets);
      assert VisitFrom(g, p, p.first, s).visit.found == FoundIn(g, packets, i);
    }
  }

  lemma {:induction false} QuietPacket(g: seq<Node>, p: Packet, from: nat, s: Pass, f: FlagReg, i: nat,
                                       packets: seq<Packet>)
    requires i < |packets| && packets[i] == p && PacketOk(g, p) && p.first <= from
    requires forall u :: !Writes(g, packets, i, u, f)
    ensures var x := VisitFrom(g, p, from, s); (f in x.live <==> f in s.live) && (f in x.last <==> f in s.last)
    decreases p.end - from
  {
    if from < p.end {
      QuietPacket(g, p, from + 1, s, f, i, packets);
      assert !Writes(g, packets, i, from, f);
    }
  }

  /** Node numbers tell which packet comes first. */
  lemma PacketOrder(g: seq<Node>, packets: seq<Packet>, i: nat, j: nat, w: nat, v: nat)
    requires ChunkOk(g, packets) && i < |packets| && j < |packets|
    requires w in packets[i].actions && v in packets[j].actions && w < v
    ensures i <= j
  {
    assert PacketOk(g, packets[i]) && PacketOk(g, packets[j]);
  }

  /** Just after a write of f has been visited, f is known to be written later and is not live. */
  lemma AfterWrite(g: seq<Node>, packets: seq<Packet>, j: nat, v: nat, f: FlagReg, s: Pass)
    requires Writes(g, packets, j, v, f) && PacketOk(g, packets[j])
    ensures packets[j].first <= v
    ensures var x := VisitFrom(g, packets[j], v, s); f in x.last && f !in x.live
  {
  }

  /** A write of f whose next write is v, in packet j, is deleted exactly when no packet after its own, up to and
      including j, reads f. */
  lemma DeletedIff(g: seq<Node>, packets: seq<Packet>, i: nat, w: nat, j: nat, v: nat, f: FlagReg)
    requires ChunkOk(g, packets) && Writes(g, packets, i, w, f) && Writes(g, packets, j, v, f) && w < v
    requires NoWrite(g, packets, w + 1, v, f)
    ensures i <= j
    ensures w in DeletedIn(g, packets, i) <==> forall k :: i < k <= j ==> f !in FoundIn(g, packets, k)
  {
    PacketOrder(g, packets, i, j, w, v);
    var p, q := packets[i], packets[j];
    assert PacketOk(g, p) && PacketOk(g, q);
    var b := VisitChunkFrom(g, packets, i + 1);
    var s := Pass(Visit(b.seen, {}), b.live, b.last, []);
    DeletedExactly(g, p, p.first, s);
    if i == j {
      AfterWrite(g, packets, j, v, f, s);
      QuietActions(g, packets, i, w + 1, v, s, f);
    } else {
      assert p.end <= q.first;
      var c := VisitChunkFrom(g, packets, j + 1);
      var t := Pass(Visit(c.seen, {}), c.live, c.last, []);
      AfterWrite(g, packets, j, v, f, t);
      QuietActions(g, packets, j, q.first, v, t, f);
      assert VisitFrom(g, q, q.first, t).visit.found == FoundIn(g, packets, j);
      forall k, u: nat | i + 1 <= k < j ensures !Writes(g, packets, k, u, f) {
        assert PacketOk(g, packets[k]) && p.end <= packets[k].first && packets[k].end <= q.first;
      }
      QuietPackets(g, packets, i + 1, j, f);
      forall k, u | w + 1 <= u < p.end ensures !Writes(g, packets, k, u, f) { assert u < v; }
      QuietActions(g, packets, i, w + 1, p.end, s, f);
    }
  }

  /** The last write of each flag in a chunk is never deleted. */
  lemma LastWriteSurvives(g: seq<Node>, packets: seq<Packet>, i: nat, w: nat, f: FlagReg)
    requires ChunkOk(g, packets) && Writes(g, packets, i, w, f)
    requires NoWrite(g, packets, w + 1, |g|, f)
    ensures w in OptimisePacket(g, packets, i).actions
  {
    var p := packets[i];
    assert PacketOk(g, p);
    var b := VisitChunkFrom(g, packets, i + 1);
    var s := Pass(Visit(b.seen, {}), b.live, b.last, []);
    DeletedExactly(g, p, p.first, s);
    QuietActions(g, packets, i, w + 1, p.end, s, f);
    forall k, u: nat | i + 1 <= k < |packets| ensures !Writes(g, packets, k, u, f) {
      assert PacketOk(g, packets[k]) && p.end <= packets[k].first;
    }
    QuietPackets(g, packets, i + 1, |packets|, f);
  }

  lemma FirstIsLeast(actions: seq<nat>, a: nat)
    requires Ascending(actions) && |actions| > 0 && a in actions[1..]
    ensures actions[0] < a
  {
    var k :| 0 <= k < |actions[1..]| && actions[1..][k] == a;
    assert actions[k + 1] == a;
  }

  lemma AscendingTail(actions: seq<nat>)
    requires Ascending(actions) && actions != []
    ensures Ascending(actions[1..])
  {
    forall i, j | 0 <= i < j < |actions| - 1 ensures actions[1..][i] < actions[1..][j] {
      assert actions[i + 1] < actions[j + 1];
    }
  }

  lemma PrependAscending(x: nat, rest: seq<nat>)
    requires Ascending(rest) && forall a :: a in rest ==> x < a
    ensures Ascending([x] + rest)
  {
    assert forall i :: 0 <= i < |rest| ==> rest[i] in rest;
  }

  /** What is left of a packet keeps its order, and everything that is not a flag write is left. */
  lemma {:induction false} SurvivorsKeepOrder(actions: seq<nat>, deleted: seq<nat>)
    requires Ascending(actions)
    ensures Ascending(Survivors(actions, deleted)) && |Survivors(actions, deleted)| <= |actions|
    decreases |actions|
  {
    if actions != [] {
      AscendingTail(actions);
      SurvivorsKeepOrder(actions[1..], deleted);
      var rest := Survivors(actions[1..], deleted);
      forall a | a in rest ensures actions[0] < a {
        FirstIsLeast(actions, a);
      }
      PrependAscending(actions[0], rest);
    }
  }

  lemma OnlyFlagWritesGo(g: seq<Node>, packets: seq<Packet>, i: nat, a: nat)
    requires ChunkOk(g, packets) && i < |packets| && a in packets[i].actions
    ensures PacketOk(g, OptimisePacket(g, packets, i))
    ensures a !in OptimisePacket(g, packets, i).actions ==> a < |g| && IsFlagWrite(g[a])
  {
    var p := packets[i];
    assert PacketOk(g, p);
    var b := VisitChunkFrom(g, packets, i + 1);
    DeletedExactly(g, p, p.first, Pass(Visit(b.seen, {}), b.live, b.last, []));
    SurvivorsKeepOrder(p.actions, DeletedIn(g, packets, i));
  }

  // ---------------------------------------------------------------------------------------------
  // Port targets
  // ---------------------------------------------------------------------------------------------

  /** The target sets of ports; a port that is not a key has none. */
  type Links = map<Port, set<nat>>

  function Targets(links: Links, p: Port): set<nat> {
    if p in links then links[p] else {}
  }

  /** The flag port a deleted write is taken off, by the name of the register it writes; the parity flag has none. */
  function FlagPort(f: FlagReg): Option<PortKind> {
    match f
    case ZF => Some(Zero)
    case CF => Some(Carry)
    case OF => Some(Overflow)
    case SF => Some(Negative)
    case PF => None
  }

  /** Deleting flag write w takes it off port p. */
  predicate Detaches(g: seq<Node>, w: nat, p: Port) {
    w < |g| && IsFlagWrite(g[w]) && g[w].value.owner < |g|
    && (g[g[w].value.owner].Arith? || g[g[w].value.owner].Atomic?)
    && FlagPort(g[w].reg.flag).Some? && p == Port(g[w].value.owner, FlagPort(g[w].reg.flag).value)
  }

  /** Deleting flag write w is not supported: the pass throws. */
  predicate Unsupported(g: seq<Node>, w: nat) {
    w < |g| && IsFlagWrite(g[w]) && g[w].value.owner < |g|
    && (g[g[w].value.owner].Arith? || g[g[w].value.owner].Atomic?) && g[w].reg.flag.PF?
  }

  /** Unlink one deleted write from the node that produces its value. */
  function Unlink(g: seq<Node>, w: nat, links: Links): Option<Links> {
    if Unsupported(g, w) then None
    else if w < |g| && IsFlagWrite(g[w]) && g[w].value.owner < |g|
         && (g[g[w].value.owner].Arith? || g[g[w].value.owner].Atomic?) then
      var port := Port(g[w].value.owner, FlagPort(g[w].reg.flag).value);
      Some(links[port := Targets(links, port) - {w}])
    else Some(links)
  }

  function UnlinkAll(g: seq<Node>, deleted: seq<nat>, links: Links): Option<Links> {
    if deleted == [] then Some(links)
    else match Unlink(g, deleted[0], links)
      case None => None
      case Some(l) => UnlinkAll(g, deleted[1..], l)
  }

  /** The links after the packets from i on have been optimised, last one first; None when the pass threw. */
  function LinksFrom(g: seq<Node>, packets: seq<Packet>, i: nat, links: Links): Option<Links>
    requires forall p :: p in packets ==> Readable(g, p)
    decreases |packets| - i
  {
    if i >= |packets| then Some(links)
    else match LinksFrom(g, packets, i + 1, links)
      case None => None
      case Some(l) => UnlinkAll(g, DeletedIn(g, packets, i), l)
  }

  lemma {:induction false} UnlinkAllExact(g: seq<Node>, deleted: seq<nat>, links: Links, p: Port, x: nat)
    requires UnlinkAll(g, deleted, links).Some?
    ensures x in Targets(UnlinkAll(g, deleted, links).value, p) <==>
            (x in Targets(links, p) && !(x in deleted && Detaches(g, x, p)))
    decreases |deleted|
  {
    if deleted != [] {
      var l := Unlink(g, deleted[0], links).value;
      UnlinkAllExact(g, deleted[1..], l, p, x);
      assert x in deleted <==> x == deleted[0] || x in deleted[1..];
    }
  }

  lemma {:induction false} UnlinkAllThrows(g: seq<Node>, deleted: seq<nat>, links: Links)
    ensures UnlinkAll(g, deleted, links).None? <==> exists w :: w in deleted && Unsupported(g, w)
    decreases |deleted|
  {
    if deleted != [] {
      var l := Unlink(g, deleted[0], links);
      if l.Some? { UnlinkAllThrows(g, deleted[1..], l.value); }
    }
  }

  /** Write x is deleted from one of the packets from i on. */
  ghost predicate DeletedSomewhere(g: seq<Node>, packets: seq<Packet>, i: nat, x: nat)
    requires forall p :: p in packets ==> Readable(g, p)
  {
    exists k :: i <= k < |packets| && x in DeletedIn(g, packets, k)
  }

  /** The pass throws exactly when it would delete a write of the parity flag fed by an arithmetic or atomic node. */
  lemma {:induction false} ThrowsExactly(g: seq<Node>, packets: seq<Packet>, i: nat, links: Links)
    requires forall p :: p in packets ==> Readable(g, p)
    ensures LinksFrom(g, packets, i, links).None? <==>
            exists x: nat :: DeletedSomewhere(g, packets, i, x) && x < |g| && g[x].WriteReg? && g[x].reg == Flag(PF)
                        && g[x].value.owner < |g| && (g[g[x].value.owner].Arith? || g[g[x].value.owner].Atomic?)
    decreases |packets| - i
  {
    if i < |packets| {
      ThrowsExactly(g, packets, i + 1, links);
      forall x: nat ensures DeletedSomewhere(g, packets, i, x) <==>
                       DeletedSomewhere(g, packets, i + 1, x) || x in DeletedIn(g, packets, i)
      {
        DeletedSplit(g, packets, i, x);
      }
      var l := LinksFrom(g, packets, i + 1, links);
      if l.Some? { UnlinkAllThrows(g, DeletedIn(g, packets, i), l.value); }
    }
  }

  /** When it does not throw, the zero, carry, overflow and negative ports of an arithmetic or atomic node lose exactly
      the deleted writes of ZF, CF, OF and SF that take a value of this node; no other port loses anything. */
  lemma {:induction false} LinksExact(g: seq<Node>, packets: seq<Packet>, i: nat, links: Links, p: Port, x: nat)
    requires forall p :: p in packets ==> Readable(g, p)
    requires LinksFrom(g, packets, i, links).Some?
    ensures x in Targets(LinksFrom(g, packets, i, links).value, p) <==>
            x in Targets(links, p) &&
            !(DeletedSomewhere(g, packets, i, x) && x < |g| && g[x].WriteReg? && g[x].value.owner == p.owner < |g|
              && (g[p.owner].Arith? || g[p.owner].Atomic?)
              && (|| (g[x].reg == Flag(ZF) && p.kind == Zero) || (g[x].reg == Flag(CF) && p.kind == Carry)
                  || (g[x].reg == Flag(OF) && p.kind == Overflow) || (g[x].reg == Flag(SF) && p.kind == Negative)))
    decreases |packets| - i
  {
    if i < |packets| {
      LinksExact(g, packets, i + 1, links, p, x);
      DeletedSplit(g, packets, i, x);
      UnlinkAllExact(g, DeletedIn(g, packets, i), LinksFrom(g, packets, i + 1, links).value, p, x);
    }
  }

  lemma DeletedSplit(g: seq<Node>, packets: seq<Packet>, i: nat, x: nat)
    requires i < |packets| && forall p :: p in packets ==> Readable(g, p)
    ensures DeletedSomewhere(g, packets, i, x) <==>
            (DeletedSomewhere(g, packets, i + 1, x) || x in DeletedIn(g, packets, i))
  {
    if DeletedSomewhere(g, packets, i, x) {
      var k :| i <= k < |packets| && x in DeletedIn(g, packets, k);
      assert k == i || k >= i + 1;
    }
  }

  /** A write of ZF, CF, OF or SF fed by the zero, carry, overflow or negative port of an arithmetic or atomic node
      stays a target of that port exactly when it survives in its packet: this is what the translation relies on
      when it asks whether a node's flags are needed. */
  lemma TargetsMatchSurvivors(g: seq<Node>, packets: seq<Packet>, links: Links, i: nat, w: nat)
    requires ChunkOk(g, packets) && i < |packets| && w in packets[i].actions && w < |g| && g[w].WriteReg?
    requires (g[w].reg == Flag(ZF) && g[w].value.kind == Zero) || (g[w].reg == Flag(CF) && g[w].value.kind == Carry)
          || (g[w].reg == Flag(OF) && g[w].value.kind == Overflow)
          || (g[w].reg == Flag(SF) && g[w].value.kind == Negative)
    requires g[w].value.owner < |g| && (g[g[w].value.owner].Arith? || g[g[w].value.owner].Atomic?)
    requires w in Targets(links, g[w].value)
    requires LinksFrom(g, packets, 0, links).Some?
    ensures w in Targets(LinksFrom(g, packets, 0, links).value, g[w].value) <==>
            w in OptimisePacket(g, packets, i).actions
  {
    LinksExact(g, packets, 0, links, g[w].value, w);
    assert PacketOk(g, packets[i]);
    forall k | 0 <= k < |packets| && k != i ensures w !in DeletedIn(g, packets, k) {
      assert PacketOk(g, packets[k]);
      var b := VisitChunkFrom(g, packets, k + 1);
      DeletedExactly(g, packets[k], packets[k].first, Pass(Visit(b.seen, {}), b.live, b.last, []));
      assert packets[k].end <= packets[i].first || packets[i].end <= packets[k].first;
    }
    assert DeletedSomewhere(g, packets, 0, w) <==> w in DeletedIn(g, packets, i);
  }
}
