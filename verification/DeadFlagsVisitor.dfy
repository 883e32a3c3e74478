/** The dead-flag visitor itself: an object whose visit methods update its sets, the deletion list, the packets'
    action lists and the ports' target sets in place. Each method is proved against the functions of DeadFlags. */
module DeadFlagsVisitor {
  import opened Wrappers
  import opened Ir
  import opened DeadFlags
  import opened DeadFlagsExact

  /** std::remove_if followed by erase, for one node. */
  function Without(actions: seq<nat>, n: nat): seq<nat> {
    if actions == [] then []
    else (if actions[0] == n then [] else [actions[0]]) + Without(actions[1..], n)
  }

  lemma {:induction false} WithoutOne(actions: seq<nat>, deleted: seq<nat>, n: nat)
    ensures Without(Survivors(actions, deleted), n) == Survivors(actions, deleted + [n])
    decreases |actions|
  {
    if actions != [] {
      WithoutOne(actions[1..], deleted, n);
      var rest := Survivors(actions[1..], deleted);
      if actions[0] in deleted {
        assert [] + rest == rest;
      } else {
        assert ([actions[0]] + rest)[1..] == rest;
      }
    }
  }

  lemma {:induction false} SurvivorsOfNone(actions: seq<nat>)
    ensures Survivors(actions, []) == actions
    decreases |actions|
  {
    if actions != [] { SurvivorsOfNone(actions[1..]); }
  }

  /** Numbers that are not actions do not change the pass. */
  lemma {:induction false} SkipGap(g: seq<Node>, p: Packet, id: nat, upto: nat, s: Pass)
    requires p.first <= id <= upto <= p.end && Built(g, p.first, p.end)
    requires forall a :: a in p.actions ==> !(id <= a < upto)
    ensures VisitFrom(g, p, id, s) == VisitFrom(g, p, upto, s)
    decreases upto - id
  {
    if id < upto { SkipGap(g, p, id + 1, upto, s); }
  }

  lemma {:induction false} UnlinkPrefix(g: seq<Node>, deleted: seq<nat>, k: nat, links: Links)
    requires k < |deleted|
    ensures match UnlinkAll(g, deleted[..k], links)
            case None => UnlinkAll(g, deleted, links).None?
            case Some(l) => UnlinkAll(g, deleted[..k + 1], links) == Unlink(g, deleted[k], l) &&
                            (Unlink(g, deleted[k], l).None? ==> UnlinkAll(g, deleted, links).None?)
    decreases k
  {
    var l := Unlink(g, deleted[0], links);
    if k == 0 {
      assert deleted[..1][1..] == [];
    } else if l.Some? {
      UnlinkPrefix(g, deleted[1..], k - 1, l.value);
      assert deleted[1..][..k - 1] == deleted[..k][1..];
      assert deleted[1..][..k] == deleted[..k + 1][1..];
      assert deleted[1..][k - 1] == deleted[k];
    }
  }

  class Visitor {
    const nodes: seq<Node>
    var packets: seq<Packet>
    var links: Links
    var seen: set<nat>
    var liveFlags: set<FlagReg>
    var newLiveFlags: set<FlagReg>
    var lastSePackets: set<FlagReg>
    var toDelete: seq<nat>

    constructor (nodes: seq<Node>, packets: seq<Packet>, links: Links)
      ensures this.nodes == nodes && this.packets == packets && this.links == links
      ensures seen == {} && liveFlags == {} && newLiveFlags == {} && lastSePackets == {} && toDelete == []
    {
      this.nodes, this.packets, this.links := nodes, packets, links;
      seen, liveFlags, newLiveFlags, lastSePackets, toDelete := {}, {}, {}, {}, [];
    }

    ghost function Marks(): Visit
      reads this
    {
      Visit(seen, newLiveFlags)
    }

    ghost function Current(): Pass
      reads this
    {
      Pass(Marks(), liveFlags, lastSePackets, toDelete)
    }

    method VisitPort(first: nat, n: nat)
      requires first <= n && Built(nodes, first, n + 1)
      modifies this`seen, this`newLiveFlags
      ensures Marks() == DeadFlags.VisitPort(nodes, first, n, old(Marks()))
      decreases 2 * n + 1
    {
      if n in seen {
        return;
      }
      seen := seen + {n};
      assert NodeOk(nodes, first, n);
      match nodes[n]
      case ReadReg(Flag(f)) => newLiveFlags := newLiveFlags + {f};
      case ReadReg(Other(_)) =>
      case Arith(_, args) => VisitPorts(first, n, args);
      case Pure(_, args) => VisitPorts(first, n, args);
      case _ =>
    }

    method VisitPorts(first: nat, bound: nat, args: seq<Port>)
      requires Built(nodes, first, bound)
      requires forall p :: p in args ==> first <= p.owner < bound
      modifies this`seen, this`newLiveFlags
      ensures Marks() == DeadFlags.VisitPorts(nodes, first, bound, args, old(Marks()))
      decreases 2 * bound
    {
      ghost var before := Marks();
      for i := 0 to |args|
        invariant DeadFlags.VisitPorts(nodes, first, bound, args[i..], Marks()) ==
                  DeadFlags.VisitPorts(nodes, first, bound, args, before)
      {
        assert args[i..][0] == args[i] && args[i..][1..] == args[i + 1..];
        VisitPort(first, args[i].owner);
      }
      assert args[|args|..] == [];
    }

    method VisitFlagWrite(n: nat, f: FlagReg)
      modifies this`lastSePackets, this`liveFlags, this`toDelete
      ensures Current() == DeadFlags.VisitFlagWrite(n, f, old(Current()))
    {
      if f !in lastSePackets {
        lastSePackets := lastSePackets + {f};
        liveFlags := liveFlags - {f};
      } else if f in liveFlags {
        liveFlags := liveFlags - {f};
      } else {
        toDelete := toDelete + [n];
      }
    }

    method Accept(first: nat, n: nat)
      requires first <= n && Built(nodes, first, n + 1)
      modifies this`seen, this`newLiveFlags, this`lastSePackets, this`liveFlags, this`toDelete
      ensures Current() == VisitAction(nodes, first, n, old(Current()))
    {
      if Guarded(nodes[n]) && n in seen {
        return;
      }
      assert NodeOk(nodes, first, n);
      if IsFlagWrite(nodes[n]) {
        VisitFlagWrite(n, nodes[n].reg.flag);
      }
      VisitPorts(first, n, Operands(nodes[n]));
    }

    /** The first half of visit_packet: visit the actions, last one first. */
    method VisitActions(p: Packet)
      requires PacketOk(nodes, p)
      modifies this`seen, this`newLiveFlags, this`lastSePackets, this`liveFlags, this`toDelete
      ensures Current() == VisitFrom(nodes, p, p.first, old(Current()))
    {
      ghost var s0 := Current();
      assert forall k :: 0 <= k < |p.actions| ==> p.actions[k] in p.actions;
      var a := |p.actions|;
      while a > 0
        invariant 0 <= a <= |p.actions|
        invariant Current() == VisitFrom(nodes, p, if a == |p.actions| then p.end else p.actions[a], s0)
      {
        a := a - 1;
        SkipGap(nodes, p, p.actions[a] + 1, if a + 1 == |p.actions| then p.end else p.actions[a + 1], s0);
        Accept(p.first, p.actions[a]);
      }
      SkipGap(nodes, p, p.first, if 0 == |p.actions| then p.end else p.actions[0], s0);
    }

    /** The second half: unlink every marked write and erase it from the action list. False when an unlink threw. */
    method EraseMarked(original: seq<nat>) returns (ok: bool, actions: seq<nat>)
      modifies this`links
      ensures ok == UnlinkAll(nodes, toDelete, old(links)).Some?
      ensures ok ==> actions == Survivors(original, toDelete) && Some(links) == UnlinkAll(nodes, toDelete, old(links))
    {
      actions := original;
      SurvivorsOfNone(actions);
      for k := 0 to |toDelete|
        invariant UnlinkAll(nodes, toDelete[..k], old(links)) == Some(links)
        invariant actions == Survivors(original, toDelete[..k])
      {
        var n := toDelete[k];
        UnlinkPrefix(nodes, toDelete, k, old(links));
        var unlinked := Unlink(nodes, n, links);
        if unlinked.None? {
          return false, actions;
        }
        links := unlinked.value;
        WithoutOne(original, toDelete[..k], n);
        assert toDelete[..k] + [n] == toDelete[..k + 1];
        actions := Without(actions, n);
      }
      assert toDelete[..|toDelete|] == toDelete;
      ok := true;
    }

    /** visit_packet: visit the actions backwards, then unlink and erase the marked ones, then make the reads found
        in the packet live. False when an unlink threw. */
    method VisitPacket(i: nat) returns (ok: bool)
      requires i < |packets| && PacketOk(nodes, packets[i]) && toDelete == [] && newLiveFlags == {}
      modifies this
      ensures var p := old(packets[i]);
              var s := DeadFlags.VisitPacket(nodes, p, Between(old(seen), old(liveFlags), old(lastSePackets)));
              && ok == UnlinkAll(nodes, s.deleted, old(links)).Some?
              && (ok ==>
                    && packets == old(packets)[i := p.(actions := Survivors(p.actions, s.deleted))]
                    && Some(links) == UnlinkAll(nodes, s.deleted, old(links))
                    && Between(seen, liveFlags, lastSePackets) == AfterPacket(s)
                    && toDelete == [] && newLiveFlags == {})
    {
      var p := packets[i];
      VisitActions(p);
      var actions;
      ok, actions := EraseMarked(p.actions);
      if ok {
        packets := packets[i := p.(actions := actions)];
        toDelete := [];
        liveFlags := liveFlags + newLiveFlags;
        newLiveFlags := {};
      }
    }

    /** visit_chunk on a freshly reset visitor: the chunk and its links end as the functions say, or the pass throws. */
    method VisitChunk() returns (ok: bool)
      requires ChunkOk(nodes, packets) && seen == {} && newLiveFlags == {} && toDelete == []
      modifies this
      ensures ok == LinksFrom(nodes, old(packets), 0, old(links)).Some?
      ensures ok ==>
                packets == Optimise(nodes, old(packets)) && Some(links) == LinksFrom(nodes, old(packets), 0, old(links))
    {
      lastSePackets, liveFlags := {}, {};
      ghost var original := packets;
      ghost var links0 := links;
      var i := |packets|;
      assert packets[i..] == [];
      while i > 0
        invariant i <= |original| == |packets|
        invariant packets[..i] == original[..i] && packets[i..] == OptimiseFrom(nodes, original, i)
        invariant LinksFrom(nodes, original, i, links0) == Some(links)
        invariant Between(seen, liveFlags, lastSePackets) == VisitChunkFrom(nodes, original, i)
        invariant toDelete == [] && newLiveFlags == {}
      {
        i := i - 1;
        assert packets[..i + 1][i] == original[..i + 1][i];
        assert PacketOk(nodes, original[i]);
        ghost var earlier := packets;
        var done := VisitPacket(i);
        if !done {
          ThrowsEarlier(nodes, original, i, links0);
          return false;
        }
        OneMore(nodes, original, earlier, packets, i);
      }
      return true;
    }
  }

  /** Once the pass has thrown, it has thrown. */
  /** Packets from i + 1 on have been optimised, and then packet i. */
  lemma OneMore(g: seq<Node>, original: seq<Packet>, earlier: seq<Packet>, packets: seq<Packet>, i: nat)
    requires i < |original| == |earlier| && forall p :: p in original ==> Readable(g, p)
    requires earlier[..i + 1] == original[..i + 1] && earlier[i + 1..] == OptimiseFrom(g, original, i + 1)
    requires packets == earlier[i := OptimisePacket(g, original, i)]
    ensures packets[..i] == original[..i] && packets[i..] == OptimiseFrom(g, original, i)
  {
    assert packets[i..] == [packets[i]] + earlier[i + 1..];
    assert packets[..i] == earlier[..i + 1][..i] == original[..i];
  }

  lemma {:induction false} ThrowsEarlier(g: seq<Node>, packets: seq<Packet>, i: nat, links: Links)
    requires forall p :: p in packets ==> Readable(g, p)
    requires LinksFrom(g, packets, i, links).None?
    ensures LinksFrom(g, packets, 0, links).None?
    decreases i
  {
    if i > 0 { ThrowsEarlier(g, packets, i - 1, links); }
  }
}
