/** When the dead flag pass is right: exactly when no write it deletes is visible, and in particular when nothing
    reads a deleted write's flag before it is written again. */
module DeadFlagsRight {
  import opened Ir
  import opened DeadFlags
  import opened DeadFlagsExact
  import opened DeadFlagsVisible
  import opened DeadFlagsFree
  import opened DeadFlagsDropped

  // ---------------------------------------------------------------------------------------------
  // The flags a packet reads
  // ---------------------------------------------------------------------------------------------

  /** The flags read at or below the actions numbered id and up, looking through every kind of node. */
  function ReadsFrom(g: seq<Node>, p: Packet, id: nat): set<FlagReg>
    requires p.first <= id && Built(g, p.first, p.end)
    decreases p.end - id
  {
    if id >= p.end then {}
    else
      assert NodeOk(g, p.first, id);
      ReadsFrom(g, p, id + 1) + (if id in p.actions then BelowPorts(g, p.first, id, Operands(g[id]), true) else {})
  }

  function Reads(g: seq<Node>, p: Packet): set<FlagReg>
    requires Readable(g, p)
  {
    ReadsFrom(g, p, p.first)
  }

  /** The flags packet k reads. */
  function ReadIn(g: seq<Node>, packets: seq<Packet>, k: nat): set<FlagReg>
    requires ChunkOk(g, packets) && k < |packets|
  {
    assert PacketOk(g, packets[k]);
    Reads(g, packets[k])
  }

  /** When no flag read hides below a guarded node, the traversal finds exactly the flags the packet reads. */
  lemma {:induction false} FoundIsReads(g: seq<Node>, p: Packet, id: nat, s: Pass)
    requires p.first <= id && PacketOk(g, p) && NothingHidden(g, p.first, p.end)
    ensures FoundFrom(g, p, id, s) == ReadsFrom(g, p, id)
    decreases p.end - id
  {
    if id < p.end {
      assert NodeOk(g, p.first, id);
      FoundIsReads(g, p, id + 1, s);
      assert NothingHidden(g, p.first, id) by {
        forall n | p.first <= n < id && Guarded(g[n]) ensures HidesNothing(g, p.first, n) {}
      }
      NothingHiddenBelowPorts(g, p.first, id, Operands(g[id]));
      if Guarded(g[id]) { assert HidesNothing(g, p.first, id); }
    }
  }

  lemma FoundInIsReads(g: seq<Node>, packets: seq<Packet>, k: nat)
    requires ChunkOk(g, packets) && NothingHiddenInChunk(g, packets) && k < |packets|
    ensures FoundIn(g, packets, k) == ReadIn(g, packets, k)
  {
    var b, p := VisitChunkFrom(g, packets, k + 1), packets[k];
    var s := Pass(Visit(b.seen, {}), b.live, b.last, []);
    assert PacketOk(g, p);
    LaterPacketsOnly(g, packets, k + 1);
    VisitFromFinds(g, p, p.first, s);
    FoundIsReads(g, p, p.first, s);
  }

  /** A write of f whose next write is v, in packet j, is deleted exactly when no packet after its own, up to and
      including j, reads f. */
  lemma DeletedIffUnread(g: seq<Node>, packets: seq<Packet>, i: nat, w: nat, j: nat, v: nat, f: FlagReg)
    requires ChunkOk(g, packets) && NothingHiddenInChunk(g, packets)
    requires Writes(g, packets, i, w, f) && Writes(g, packets, j, v, f) && w < v && NoWrite(g, packets, w + 1, v, f)
    ensures w in DeletedIn(g, packets, i) <==> forall k :: i < k <= j ==> f !in ReadIn(g, packets, k)
  {
    DeletedIff(g, packets, i, w, j, v, f);
    forall k | i < k <= j ensures FoundIn(g, packets, k) == ReadIn(g, packets, k) { FoundInIsReads(g, packets, k); }
  }

  // ---------------------------------------------------------------------------------------------
  // The pass thins its chunk
  // ---------------------------------------------------------------------------------------------

  lemma {:induction false} OptimiseAt(g: seq<Node>, packets: seq<Packet>, i: nat, k: nat)
    requires i <= k < |packets| && forall p :: p in packets ==> Readable(g, p)
    ensures OptimiseFrom(g, packets, i)[k - i] == OptimisePacket(g, packets, k)
    decreases k - i
  {
    if i < k { OptimiseAt(g, packets, i + 1, k); }
  }

  lemma PassThins(g: seq<Node>, packets: seq<Packet>)
    requires ChunkOk(g, packets)
    ensures ChunkThinned(g, packets, Optimise(g, packets))
    ensures forall p :: p in packets + Optimise(g, packets) ==> p.end <= |g|
  {
    forall i | 0 <= i < |packets| ensures Thinned(g, packets[i], Optimise(g, packets)[i]) {
      OptimiseAt(g, packets, 0, i);
      forall a | a in packets[i].actions && a !in Optimise(g, packets)[i].actions ensures a < |g| && IsFlagWrite(g[a]) {
        OnlyFlagWritesGo(g, packets, i, a);
      }
    }
    ThinnedEnds(g, packets, Optimise(g, packets));
  }

  /** The pass puts action u of packet i on its deletion list. */
  predicate Deleted(g: seq<Node>, packets: seq<Packet>, i: nat, u: nat)
    requires forall p :: p in packets ==> Readable(g, p)
  {
    i < |packets| && u in packets[i].actions && u in DeletedIn(g, packets, i)
  }

  /** What the pass drops is what it puts on its deletion lists. */
  lemma DroppedIsDeleted(g: seq<Node>, packets: seq<Packet>, i: nat, u: nat)
    requires ChunkOk(g, packets)
    ensures Dropped(packets, Optimise(g, packets), i, u) <==> Deleted(g, packets, i, u)
  {
    if i < |packets| { OptimiseAt(g, packets, 0, i); }
  }

  /** The pass deletes a write whose flag the chunk it is given wants. */
  ghost predicate DeletesWanted(g: seq<Node>, packets: seq<Packet>, inOrder: bool, i: nat, u: nat)
    requires ChunkOk(g, packets)
  {
    Deleted(g, packets, i, u) && Visible(g, packets, inOrder, i, u)
  }

  lemma WantedIsVisible(g: seq<Node>, packets: seq<Packet>, inOrder: bool)
    requires ChunkOk(g, packets) && forall p :: p in packets ==> p.end <= |g|
    ensures NothingVisibleDropped(g, packets, Optimise(g, packets), inOrder)
       <==> forall i, u :: !DeletesWanted(g, packets, inOrder, i, u)
  {
    var qs := Optimise(g, packets);
    forall i: nat, u: nat ensures DeletesWanted(g, packets, inOrder, i, u) <==>
        Dropped(packets, qs, i, u) && Visible(g, packets, inOrder, i, u)
    {
      DroppedIsDeleted(g, packets, i, u);
    }
  }

  /** The pass keeps the meaning of a chunk, for all operations and initial states, exactly when it deletes no write
      whose flag is wanted: with flags read as they were when the packet started, or in order. */
  lemma PassIsRightExactly(g: seq<Node>, packets: seq<Packet>, inOrder: bool)
    requires ChunkOk(g, packets) && PortsOk(g)
    requires forall i, u :: DeletesWanted(g, packets, inOrder, i, u) ==> OwnValue(g, Optimise(g, packets), u)
    ensures forall p :: p in packets + Optimise(g, packets) ==> p.end <= |g|
    ensures (forall m: Meaning, s: Guest :: m.inOrder == inOrder ==>
               ExecChunk(m, g, packets, s) == ExecChunk(m, g, Optimise(g, packets), s))
       <==> forall i, u :: !DeletesWanted(g, packets, inOrder, i, u)
  {
    PassThins(g, packets);
    var qs := Optimise(g, packets);
    forall i: nat, u: nat | Dropped(packets, qs, i, u) && Visible(g, packets, inOrder, i, u)
      ensures OwnValue(g, qs, u)
    {
      DroppedIsDeleted(g, packets, i, u);
      assert DeletesWanted(g, packets, inOrder, i, u);
    }
    WantedIsVisible(g, packets, inOrder);
    DroppingIsRightExactly(g, packets, qs, inOrder);
  }

  // ---------------------------------------------------------------------------------------------
  // Unread until the next write
  // ---------------------------------------------------------------------------------------------

  /** Nothing reads f between write w in packet i and write v in packet j. Reads in order: no read of f has a number
      between theirs. Reads at the start of the packet: no packet after i, up to j, reads f. */
  ghost predicate Unread(g: seq<Node>, ps: seq<Packet>, inOrder: bool, i: nat, w: nat, j: nat, v: nat, f: FlagReg)
    requires ChunkOk(g, ps) && j < |ps|
  {
    if inOrder then forall r :: w < r < v && r < |g| ==> g[r] != ReadReg(Flag(f))
    else forall k :: i < k <= j ==> f !in ReadIn(g, ps, k)
  }

  /** No read of f from id up to id'. */
  predicate NoReadNodes(g: seq<Node>, id: nat, id': nat, f: FlagReg) {
    forall r :: id <= r < id' && r < |g| ==> g[r] != ReadReg(Flag(f))
  }

  /** Going back over nodes that do not read f in order, f does not become live. */
  lemma {:induction false} StaysDead(g: seq<Node>, q: Packet, inOrder: bool, id: nat, id': nat, out: set<FlagReg>,
                                     f: FlagReg)
    requires q.end <= |g| && id <= id' && f !in WantsFrom(g, q, inOrder, id', out).live
    requires inOrder ==> NoReadNodes(g, id, id', f)
    ensures f !in WantsFrom(g, q, inOrder, id, out).live
    decreases id' - id
  {
    if id < id' && id < q.end { StaysDead(g, q, inOrder, id + 1, id', out, f); }
  }

  lemma {:induction false} EntryOnlyOtherwise(g: seq<Node>, q: Packet, id: nat, out: set<FlagReg>)
    requires q.end <= |g|
    ensures WantsFrom(g, q, true, id, out).entry == {}
    decreases q.end - id
  {
    if id < q.end { EntryOnlyOtherwise(g, q, id + 1, out); }
  }

  /** All that wanted nodes read is in r. */
  ghost predicate NodesRead(g: seq<Node>, first: nat, bound: nat, nodes: set<nat>, r: set<FlagReg>)
    requires Built(g, first, bound)
  {
    forall n :: n in nodes && first <= n < bound ==> Below(g, first, n, true) <= r
  }

  lemma {:induction false} OwnersRead(g: seq<Node>, first: nat, bound: nat, args: seq<Port>, n: nat)
    requires Built(g, first, bound) && (forall p :: p in args ==> first <= p.owner < bound) && n in Owners(args)
    ensures first <= n < bound && Below(g, first, n, true) <= BelowPorts(g, first, bound, args, true)
    decreases |args|
  {
    var p :| p in args && p.owner == n;
    if p != args[0] {
      assert p in args[1..];
      assert n in Owners(args[1..]);
      OwnersRead(g, first, bound, args[1..], n);
    }
  }

  /** Flags wanted as they were when the packet started are flags the packet reads. */
  lemma {:induction false} EntryIsRead(g: seq<Node>, p: Packet, q: Packet, id: nat, out: set<FlagReg>, r: set<FlagReg>)
    requires PacketOk(g, p) && Thinned(g, p, q) && p.first <= id && ReadsFrom(g, p, p.first) <= r
    ensures WantsFrom(g, q, false, id, out).entry <= r
    ensures NodesRead(g, p.first, p.end, WantsFrom(g, q, false, id, out).nodes, r)
    decreases p.end - id
  {
    if id < p.end {
      EntryIsRead(g, p, q, id + 1, out, r);
      assert NodeOk(g, p.first, id);
      var after := WantsFrom(g, q, false, id + 1, out);
      var acted := WantsAction(g, q, id, after);
      if id in q.actions { ActionReads(g, p, p.first, id); }
      forall n | n in acted.nodes && p.first <= n < p.end ensures Below(g, p.first, n, true) <= r {
        if n !in after.nodes { OwnersRead(g, p.first, id, Operands(g[id]), n); }
      }
      var w := WantsFrom(g, q, false, id, out);
      if id in acted.nodes {
        assert Below(g, p.first, id, true) <= r;
        forall n | n in w.nodes && p.first <= n < p.end ensures Below(g, p.first, n, true) <= r {
          if n !in acted.nodes { OwnersRead(g, p.first, id, Operands(g[id]), n); }
        }
      }
    }
  }

  lemma {:induction false} ActionReads(g: seq<Node>, p: Packet, from: nat, a: nat)
    requires PacketOk(g, p) && p.first <= from <= a && a in p.actions
    ensures NodeOk(g, p.first, a) && BelowPorts(g, p.first, a, Operands(g[a]), true) <= ReadsFrom(g, p, from)
    decreases a - from
  {
    assert NodeOk(g, p.first, a);
    if from < a { ActionReads(g, p, from + 1, a); }
  }

  /** A flag is not wanted just before a write of it that is left, nor before one that is dropped unseen. */
  lemma AtWrite(g: seq<Node>, p: Packet, q: Packet, inOrder: bool, v: nat, out: set<FlagReg>)
    requires PacketOk(g, p) && Thinned(g, p, q) && v in p.actions && IsFlagWrite(g[v])
    requires v !in q.actions ==> g[v].reg.flag !in WantsFrom(g, q, inOrder, v + 1, out).live
    ensures g[v].reg.flag !in WantsFrom(g, q, inOrder, v, out).live
  {
  }

  /** A packet that does not read f, and is followed by code that does not want it. */
  lemma QuietBefore(g: seq<Node>, ps: seq<Packet>, qs: seq<Packet>, inOrder: bool, k: nat, id: nat, f: FlagReg)
    requires ChunkOk(g, ps) && ChunkThinned(g, ps, qs) && k < |ps| && forall q :: q in qs ==> q.end <= |g|
    requires PacketOk(g, ps[k]) && ps[k].first <= id
    requires f !in WantsFrom(g, qs[k], inOrder, id, WantedAt(g, qs, inOrder, k + 1)).live
    requires if inOrder then NoReadNodes(g, ps[k].first, id, f) else f !in ReadIn(g, ps, k)
    ensures f !in WantedAt(g, qs, inOrder, k)
  {
    var p, q, out := ps[k], qs[k], WantedAt(g, qs, inOrder, k + 1);
    assert Thinned(g, p, q);
    StaysDead(g, q, inOrder, q.first, id, out, f);
    if inOrder { EntryOnlyOtherwise(g, q, q.first, out); } else { EntryIsRead(g, p, q, p.first, out, Reads(g, p)); }
  }

  /** What Unread says of one packet after the first. */
  lemma UnreadIn(g: seq<Node>, ps: seq<Packet>, inOrder: bool, i: nat, w: nat, k: nat, j: nat, v: nat, f: FlagReg)
    requires ChunkOk(g, ps) && i < k <= j < |ps| && Unread(g, ps, inOrder, i, w, j, v, f)
    requires w in ps[i].actions && v in ps[j].actions
    ensures PacketOk(g, ps[k]) && ps[k].first <= ps[k].end && w < ps[k].first
    ensures if inOrder then NoReadNodes(g, ps[k].first, if k < j then ps[k].end else v, f) else f !in ReadIn(g, ps, k)
  {
    assert PacketOk(g, ps[i]) && PacketOk(g, ps[j]) && PacketOk(g, ps[k]);
  }

  /** A whole packet between. */
  lemma QuietWhole(g: seq<Node>, ps: seq<Packet>, qs: seq<Packet>, inOrder: bool, k: nat, f: FlagReg)
    requires ChunkOk(g, ps) && ChunkThinned(g, ps, qs) && k < |ps| && forall q :: q in qs ==> q.end <= |g|
    requires PacketOk(g, ps[k]) && f !in WantedAt(g, qs, inOrder, k + 1)
    requires if inOrder then NoReadNodes(g, ps[k].first, ps[k].end, f) else f !in ReadIn(g, ps, k)
    ensures f !in WantedAt(g, qs, inOrder, k)
  {
    assert Thinned(g, ps[k], qs[k]);
    QuietBefore(g, ps, qs, inOrder, k, qs[k].end, f);
  }

  /** The packets between. */
  lemma {:induction false} QuietBetween(g: seq<Node>, ps: seq<Packet>, qs: seq<Packet>, inOrder: bool, i: nat,
                                        w: nat, k: nat,
                                        j: nat, v: nat, f: FlagReg)
    requires ChunkOk(g, ps) && ChunkThinned(g, ps, qs) && i < k <= j < |ps| && forall q :: q in qs ==> q.end <= |g|
    requires w in ps[i].actions && v in ps[j].actions && w < v && Unread(g, ps, inOrder, i, w, j, v, f)
    requires f !in WantsFrom(g, qs[j], inOrder, v, WantedAt(g, qs, inOrder, j + 1)).live
    ensures f !in WantedAt(g, qs, inOrder, k)
    decreases j - k
  {
    UnreadIn(g, ps, inOrder, i, w, k, j, v, f);
    if k < j {
      QuietBetween(g, ps, qs, inOrder, i, w, k + 1, j, v, f);
      QuietWhole(g, ps, qs, inOrder, k, f);
    } else {
      assert PacketOk(g, ps[j]);
      QuietBefore(g, ps, qs, inOrder, j, v, f);
    }
  }

  /** The rest of the packet of the first write, when the next one is in a later packet. */
  lemma QuietAfter(g: seq<Node>, ps: seq<Packet>, qs: seq<Packet>, inOrder: bool, i: nat, w: nat, j: nat, v: nat,
                   f: FlagReg)
    requires ChunkOk(g, ps) && ChunkThinned(g, ps, qs) && i < j < |ps| && forall q :: q in qs ==> q.end <= |g|
    requires w in ps[i].actions && v in ps[j].actions && Unread(g, ps, inOrder, i, w, j, v, f)
    requires f !in WantedAt(g, qs, inOrder, i + 1)
    ensures f !in WantsFrom(g, qs[i], inOrder, w + 1, WantedAt(g, qs, inOrder, i + 1)).live
  {
    assert PacketOk(g, ps[i]) && PacketOk(g, ps[j]) && ps[i].end <= ps[j].first && Thinned(g, ps[i], qs[i]);
    StaysDead(g, qs[i], inOrder, w + 1, qs[i].end, WantedAt(g, qs, inOrder, i + 1), f);
  }

  /** ... and when it is in the same one. */
  lemma QuietWithin(g: seq<Node>, ps: seq<Packet>, qs: seq<Packet>, inOrder: bool, i: nat, w: nat, v: nat, f: FlagReg)
    requires ChunkOk(g, ps) && i < |ps| == |qs| && forall q :: q in qs ==> q.end <= |g|
    requires w < v && Unread(g, ps, inOrder, i, w, i, v, f)
    requires f !in WantsFrom(g, qs[i], inOrder, v, WantedAt(g, qs, inOrder, i + 1)).live
    ensures f !in WantsFrom(g, qs[i], inOrder, w + 1, WantedAt(g, qs, inOrder, i + 1)).live
  {
    StaysDead(g, qs[i], inOrder, w + 1, v, WantedAt(g, qs, inOrder, i + 1), f);
  }

  lemma DeadAtWrite(g: seq<Node>, ps: seq<Packet>, qs: seq<Packet>, inOrder: bool, j: nat, v: nat, f: FlagReg)
    requires ChunkOk(g, ps) && ChunkThinned(g, ps, qs) && forall q :: q in qs ==> q.end <= |g|
    requires Writes(g, ps, j, v, f) && (Dropped(ps, qs, j, v) ==> !Visible(g, qs, inOrder, j, v))
    ensures f !in WantsFrom(g, qs[j], inOrder, v, WantedAt(g, qs, inOrder, j + 1)).live
  {
    assert PacketOk(g, ps[j]) && Thinned(g, ps[j], qs[j]);
    AtWrite(g, ps[j], qs[j], inOrder, v, WantedAt(g, qs, inOrder, j + 1));
  }

  /** A dropped write whose flag is written again, unread, by a write that is left or dropped unseen, is not visible. */
  lemma UnreadIsInvisible(g: seq<Node>, ps: seq<Packet>, qs: seq<Packet>, inOrder: bool, i: nat, w: nat, j: nat, v: nat,
                          f: FlagReg)
    requires ChunkOk(g, ps) && ChunkThinned(g, ps, qs) && forall q :: q in qs ==> q.end <= |g|
    requires Dropped(ps, qs, i, w) && Writes(g, ps, i, w, f) && Writes(g, ps, j, v, f) && w < v
    requires Unread(g, ps, inOrder, i, w, j, v, f)
    requires Dropped(ps, qs, j, v) ==> !Visible(g, qs, inOrder, j, v)
    ensures !Visible(g, qs, inOrder, i, w)
  {
    PacketOrder(g, ps, i, j, w, v);
    DeadAtWrite(g, ps, qs, inOrder, j, v, f);
    if i == j {
      QuietWithin(g, ps, qs, inOrder, i, w, v, f);
    } else {
      QuietBetween(g, ps, qs, inOrder, i, w, i + 1, j, v, f);
      QuietAfter(g, ps, qs, inOrder, i, w, j, v, f);
    }
  }

  /** The flag that w writes is written again later, and not read before. */
  ghost predicate NextUnread(g: seq<Node>, ps: seq<Packet>, inOrder: bool, i: nat, w: nat)
    requires ChunkOk(g, ps)
  {
    && w < |g| && IsFlagWrite(g[w])
    && exists j: nat, v: nat :: w < v && Writes(g, ps, j, v, g[w].reg.flag) &&
        Unread(g, ps, inOrder, i, w, j, v, g[w].reg.flag)
  }

  lemma {:induction false} DroppedIsInvisible(g: seq<Node>, ps: seq<Packet>, qs: seq<Packet>, inOrder: bool, i: nat,
                                              w: nat)
    requires ChunkOk(g, ps) && ChunkThinned(g, ps, qs) && forall q :: q in qs ==> q.end <= |g|
    requires forall k, u :: Dropped(ps, qs, k, u) ==> NextUnread(g, ps, inOrder, k, u)
    requires Dropped(ps, qs, i, w)
    ensures !Visible(g, qs, inOrder, i, w)
    decreases |g| - w
  {
    assert NextUnread(g, ps, inOrder, i, w);
    var f := g[w].reg.flag;
    var j: nat, v: nat :| w < v && Writes(g, ps, j, v, f) && Unread(g, ps, inOrder, i, w, j, v, f);
    if Dropped(ps, qs, j, v) { DroppedIsInvisible(g, ps, qs, inOrder, j, v); }
    UnreadIsInvisible(g, ps, qs, inOrder, i, w, j, v, f);
  }

  /** The pass keeps the meaning of every chunk in which nothing reads a deleted write's flag before it is written
      again, hidden below an atomic or internal-call node or not. */
  lemma PassIsSoundWhenUnread(m: Meaning, g: seq<Node>, packets: seq<Packet>, s: Guest)
    requires ChunkOk(g, packets)
    requires forall i, w :: Deleted(g, packets, i, w) ==> NextUnread(g, packets, m.inOrder, i, w)
    ensures forall p :: p in packets + Optimise(g, packets) ==> p.end <= |g|
    ensures ExecChunk(m, g, packets, s) == ExecChunk(m, g, Optimise(g, packets), s)
  {
    PassThins(g, packets);
    var qs := Optimise(g, packets);
    forall i: nat, u: nat ensures Dropped(packets, qs, i, u) <==> Deleted(g, packets, i, u) {
      DroppedIsDeleted(g, packets, i, u);
    }
    forall i, u | Dropped(packets, qs, i, u) ensures !Visible(g, qs, m.inOrder, i, u) {
      DroppedIsInvisible(g, packets, qs, m.inOrder, i, u);
    }
    DroppingUnseenIsSound(m, g, packets, qs, s);
  }
}
