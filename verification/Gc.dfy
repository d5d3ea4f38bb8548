/** The conservative mark-and-sweep collector of os/kernel/gc.c, over a linked
    list of heap blocks. */
module Gc {
  import opened HeapGraph

  const GC_HDR: nat := 16
  const MAX_ROOTS: nat := 64
  const WORD: nat := 8
  const UINT_END: int := 0x1_0000_0000

  /** gc_block_t. addr is where the header lies in memory; words are the machine
      words at multiples of 8 in the payload that fit into it. */
  class Block {
    const addr: nat
    const size: nat
    var next: Block?
    var marked: bool
    var words: seq<nat>

    constructor (addr: nat, size: nat, words: seq<nat>, next: Block?)
      ensures this.addr == addr && this.size == size && this.words == words && this.next == next && !marked
    {
      this.addr, this.size, this.words, this.next, marked := addr, size, words, next, false;
    }

    function Payload(): nat {
      addr + GC_HDR
    }
  }

  /** A registered pointer variable. */
  class Root {
    var value: nat
  }

  ghost function Shapes(bs: seq<Block>): (h: Heap)
    reads bs
    ensures |h| == |bs|
  {
    seq(|bs|, i requires 0 <= i < |bs| reads bs => Shape(bs[i].Payload(), bs[i].size, bs[i].words))
  }

  /** What the registered variables hold; 0 stands for a missing one. */
  ghost function Values(rs: seq<Root?>): (v: seq<nat>)
    reads rs
    ensures |v| == |rs|
    ensures forall i | 0 <= i < |rs| :: v[i] == if rs[i] == null then 0 else rs[i].value
  {
    if rs == [] then [] else
      var last := rs[|rs| - 1];
      Values(rs[..|rs| - 1]) + [if last == null then 0 else last.value]
  }

  ghost predicate Distinct<T>(s: seq<T>) {
    forall i, j | 0 <= i < j < |s| :: s[i] != s[j]
  }

  /** bs is the list that starts at head. */
  ghost predicate IsList(head: Block?, bs: seq<Block>)
    reads bs
  {
    && head == (if bs == [] then null else bs[0])
    && (forall i {:trigger bs[i].next} | 0 <= i < |bs| :: bs[i].next == At(bs, i + 1))
  }

  ghost function At(bs: seq<Block>, i: int): Block? {
    if 0 <= i < |bs| then bs[i] else null
  }

  ghost predicate Apart(a: Block, b: Block) {
    a.Payload() + a.size <= b.Payload() || b.Payload() + b.size <= a.Payload()
  }

  ghost predicate Separate(bs: seq<Block>) {
    forall i, j | 0 <= i < j < |bs| :: Apart(bs[i], bs[j])
  }

  /** p is the address of one of the size bytes behind the 16-byte header of b. */
  predicate Hits(b: Block, p: nat) {
    b.addr + 16 <= p < b.addr + 16 + b.size
  }

  /** kept holds every block of bs that a root value is an address in, and every block of bs
      that a word of a block in kept is an address in. */
  ghost predicate KeepsHit(bs: seq<Block>, values: seq<nat>, kept: seq<Block>)
    reads bs`words
  {
    && (forall b, i | b in bs && 0 <= i < |values| && Hits(b, values[i]) :: b in kept)
    && (forall a, b, i | a in bs && a in kept && b in bs && 0 <= i < |a.words| && Hits(b, a.words[i]) :: b in kept)
  }

  class Collector {
    const heapStart: nat
    const heapEnd: nat
    var head: Block?
    const roots: array<Root?>
    var nroots: nat
    var inited: bool
    var liveCount: nat
    var liveBytes: nat
    ghost var blocks: seq<Block>
    ghost var freed: seq<Block>

    /** The zeroed statics, before gc_init. */
    constructor (heapStart: nat, heapEnd: nat)
      requires heapEnd < 0x1_0000_0000
      ensures Valid() && blocks == [] && freed == [] && RootVars() == [] && fresh(roots) && !inited
      ensures this.heapStart == heapStart && this.heapEnd == heapEnd
    {
      this.heapStart, this.heapEnd := heapStart, heapEnd;
      head, nroots, liveCount, liveBytes, inited := null, 0, 0, 0, false;
      roots := new Root?[MAX_ROOTS](i => null);
      blocks, freed := [], [];
    }

    ghost predicate InHeap(b: Block) {
      heapStart <= b.Payload() && b.Payload() + b.size <= heapEnd && b.size >= 1
    }

    ghost predicate Valid()
      reads this, roots, blocks
    {
      && IsList(head, blocks) && Placed() && RootTable() && (!inited ==> blocks == [])
      && (forall b | b in blocks :: |b.words| == b.size / WORD)
    }

    /** Every payload lies in the heap and no two overlap. */
    ghost predicate Placed()
      reads this`blocks
    {
      && Distinct(blocks) && heapEnd < 0x1_0000_0000 && Separate(blocks)
      && (forall b | b in blocks :: InHeap(b))
    }

    ghost predicate RootTable()
      reads this`nroots, roots
    {
      && roots.Length == MAX_ROOTS && nroots <= MAX_ROOTS
      && (forall i | 0 <= i < nroots :: roots[i] != null)
      && Distinct(roots[..nroots])
    }

    /** The registered variables, in table order. */
    ghost function RootVars(): (rs: seq<Root?>)
      reads this, roots
      requires nroots <= roots.Length
      ensures |rs| == nroots
    {
      roots[..nroots]
    }

    /** Whether a word looks like a heap address: only its low 32 bits are compared. */
    predicate IsHeapPtr(v: nat) {
      heapStart <= v % 0x1_0000_0000 < heapEnd
    }

    method FindBlock(p: nat) returns (b: Block?, ghost at: int)
      requires Valid()
      ensures at == Owner(Shapes(blocks), p)
      ensures var o := Owner(Shapes(blocks), p); b == if o < 0 then null else blocks[o]
      ensures b != null ==> b in blocks && Hits(b, p)
      ensures forall x | x in blocks && Hits(x, p) :: b == x
    {
      ShapesDisjoint();
      OwnerHits(p);
      hide Collector.Placed, Owner;
      b, at := head, 0;
      while b != null
        invariant 0 <= at <= |blocks| && b == if at < |blocks| then blocks[at] else null
        invariant OwnerFrom(Shapes(blocks), p, at) == Owner(Shapes(blocks), p)
        decreases |blocks| - at
      {
        if b.Payload() <= p < b.Payload() + b.size {
          return b, at;
        }
        b, at := b.next, at + 1;
      }
      at := -1;
    }

    /** The owner of an address is the one block with the address in the size bytes that
        follow its 16-byte header. */
    lemma OwnerHits(p: nat)
      requires Valid() && Disjoint(Shapes(blocks))
      ensures var o := Owner(Shapes(blocks), p);
              && (o >= 0 ==> Hits(blocks[o], p))
              && forall x | x in blocks && Hits(x, p) :: o >= 0 && blocks[o] == x
    {
      hide IsList, Distinct, Collector.Placed, Collector.RootTable, Owner, Disjoint;
      var h := Shapes(blocks);
      forall x | x in blocks && Hits(x, p)
        ensures Owner(h, p) >= 0 && blocks[Owner(h, p)] == x
      {
        var i :| 0 <= i < |blocks| && blocks[i] == x;
        OwnerOfByte(h, i, p - h[i].payload);
      }
      if Owner(h, p) >= 0 {
        assert h[Owner(h, p)].Contains(p);
      }
    }

    lemma ShapesDisjoint()
      requires Valid()
      ensures Disjoint(Shapes(blocks))
    {
      hide IsList, Distinct, Collector.RootTable;
      var h := Shapes(blocks);
      forall i, j | 0 <= i < j < |h|
        ensures h[i].payload + h[i].size <= h[j].payload || h[j].payload + h[j].size <= h[i].payload
      {
        assert Apart(blocks[i], blocks[j]);
      }
    }

    ghost function Marked(): (m: set<nat>)
      reads this, blocks
      ensures forall i: nat :: i in m <==> i < |blocks| && blocks[i].marked
    {
      set i: nat | i < |blocks| && blocks[i].marked
    }

    /** The blocks that are not in m. */
    ghost function Outside(m: set<nat>): set<nat>
      reads this`blocks
    {
      set i: nat | i < |blocks| && i !in m
    }

    /** The pre-check of scanned words loses no pointer into a block. */
    lemma OwnedIsHeapPtr(h: Heap, v: nat)
      requires Valid() && h == Shapes(blocks)
      ensures Owner(h, v) >= 0 ==> IsHeapPtr(v)
    {
      hide IsList, Distinct, Separate;
      var o := Owner(h, v);
      if o >= 0 {
        assert InHeap(blocks[o]);
      }
    }

    method SetMark(b: Block, ghost at: nat, ghost h: Heap)
      requires Valid() && at < |blocks| && blocks[at] == b && h == Shapes(blocks)
      modifies b`marked
      ensures Valid() && h == Shapes(blocks) && Marked() == old(Marked()) + {at}
    {
      hide Collector.Placed, Collector.RootTable, Shapes;
      OnlyAt(b, at);
      b.marked := true;
      assert Valid() by {
        hide At, Distinct;
        assert forall i | 0 <= i < |blocks| :: blocks[i].next == old(blocks[i].next);
      }
      hide Valid, IsList;
      SameShapes();
    }

    lemma OnlyAt(b: Block, at: nat)
      requires Valid() && at < |blocks| && blocks[at] == b
      ensures forall i | 0 <= i < |blocks| && i != at :: blocks[i] != b
    {
    }

    twostate lemma SameShapes()
      requires blocks == old(blocks) && forall x | x in blocks :: x.words == old(x.words)
      ensures Shapes(blocks) == old(Shapes(blocks))
    {
      assert forall i | 0 <= i < |blocks| :: Shapes(blocks)[i] == old(Shapes(blocks))[i];
    }

    lemma NotMarked(at: nat)
      requires at < |blocks|
      ensures at in Marked() <==> blocks[at].marked
    {
    }

    lemma FewerOutside(m0: set<nat>, m1: set<nat>, at: nat)
      requires m0 <= m1 && at < |blocks| && at !in m0 && at in m1
      ensures Outside(m1) < Outside(m0)
    {
      assert at in Outside(m0) && at !in Outside(m1);
    }

    /** Marks b and, through every word that points into a block, whatever it leads to. */
    method Mark(b: Block, ghost at: nat, ghost h: Heap, ghost rs: seq<nat>)
      requires Valid() && at < |blocks| && blocks[at] == b
      requires h == Shapes(blocks) && Reachable(h, rs, at)
      modifies blocks`marked
      ensures Valid() && h == Shapes(blocks)
      ensures old(Marked()) <= Marked() && at in Marked()
      ensures AllReachable(h, rs, Marked() - old(Marked())) && ClosedIn(h, Marked() - old(Marked()), Marked())
      decreases Outside(Marked())
    {
      hide Reachable, Points, AllReachable, ClosedIn, Exploring, Scanned, Valid, Shapes, Owner, IsHeapPtr, IsList, At,
           Distinct, Apart, Separate, Collector.Placed, Collector.RootTable, Collector.InHeap, Collector.Marked,
               Collector.Outside;
      if b.marked {
        NothingNew(h, rs, Marked());
        return;
      }
      ghost var m0 := Marked();
      NotMarked(at);
      SetMark(b, at, h);
      StartExploring(h, rs, at, m0, Marked());
      var k := 0;
      while k < |b.words|
        invariant 0 <= k <= |b.words| && Valid() && h == Shapes(blocks) && m0 <= Marked() && at in Marked()
        invariant Exploring(h, rs, at, m0, Marked()) && Scanned(h, at, k, Marked())
      {
        var word := b.words[k];
        ghost var m1 := Marked();
        ShapeOf(h, at, k);
        OwnedIsHeapPtr(h, word);
        if IsHeapPtr(word) {
          var other, o := FindBlock(word);
          if other != null {
            Follow(h, rs, at, k, o);
            FewerOutside(m0, Marked(), at);
            Mark(other, o, h, rs);
            ExploreFurther(h, rs, at, k, m0, m1, Marked());
          }
        }
        ScanOne(h, at, k, Marked());
        k := k + 1;
      }
      AllScanned(h, at, k, Marked());
      Explored(h, rs, at, m0, Marked());
    }

    lemma ShapeOf(h: Heap, a: nat, k: nat)
      requires h == Shapes(blocks) && a < |blocks| && k < |blocks[a].words|
      ensures h[a].words[k] == blocks[a].words[k] && |h[a].words| == |blocks[a].words|
    {
    }

    lemma AllScanned(h: Heap, a: nat, k: nat, m: set<nat>)
      requires h == Shapes(blocks) && a < |blocks| && k == |blocks[a].words| && Scanned(h, a, k, m)
      ensures |h[a].words| == k
    {
    }

    method MarkPhase(ghost h: Heap, ghost rs: seq<nat>)
      requires Valid() && h == Shapes(blocks) && rs == Values(RootVars())
      modifies blocks`marked
      ensures Valid() && h == Shapes(blocks) && Marked() == Live(h, rs)
    {
      hide Reachable, Points, AllReachable, ClosedIn, Shapes, Values, Valid, Owner, Live;
      TableBounds();
      ClearMarks(h);
      NothingMarked(h, rs);
      for i := 0 to nroots
        invariant Valid() && h == Shapes(blocks) && nroots <= roots.Length && rs == Values(RootVars())
        invariant AllReachable(h, rs, Marked()) && ClosedIn(h, Marked(), Marked())
        invariant forall q | 0 <= q < i && Owner(h, rs[q]) >= 0 :: Owner(h, rs[q]) in Marked()
      {
        MarkRoot(i, h, rs);
      }
      LiveMarked(h, rs, Marked());
    }

    lemma TableBounds()
      requires Valid()
      ensures nroots <= roots.Length
    {
    }

    method MarkRoot(i: nat, ghost h: Heap, ghost rs: seq<nat>)
      requires Valid() && h == Shapes(blocks) && rs == Values(RootVars()) && i < nroots
      requires AllReachable(h, rs, Marked()) && ClosedIn(h, Marked(), Marked())
      modifies blocks`marked
      ensures Valid() && h == Shapes(blocks)
      ensures AllReachable(h, rs, Marked()) && ClosedIn(h, Marked(), Marked())
      ensures old(Marked()) <= Marked() && (Owner(h, rs[i]) >= 0 ==> Owner(h, rs[i]) in Marked())
    {
      hide Reachable, Points, AllReachable, ClosedIn, Shapes, Values, Owner;
      ghost var m1 := Marked();
      var p := if roots[i] != null then roots[i].value else 0;
      assert p == rs[i];
      if p != 0 {
        var b, at := FindBlock(p);
        if b != null {
          FromRoot(h, rs, i, at);
          Mark(b, at, h, rs);
          JoinMarks(h, rs, m1, Marked());
        }
      } else {
        NullHasNoOwner(h);
      }
    }

    lemma NullHasNoOwner(h: Heap)
      requires Valid() && h == Shapes(blocks)
      ensures Owner(h, 0) == -1
    {
    }

    method ClearMarks(ghost h: Heap)
      requires Valid() && h == Shapes(blocks)
      modifies blocks`marked
      ensures Valid() && h == Shapes(blocks) && Marked() == {}
    {
      var b := head;
      ghost var n := 0;
      while b != null
        invariant 0 <= n <= |blocks| && b == At(blocks, n)
        invariant forall i | 0 <= i < |blocks| :: blocks[i].next == old(blocks[i].next)
        invariant forall i | 0 <= i < n :: !blocks[i].marked
        decreases |blocks| - n
      {
        b.marked := false;
        b, n := b.next, n + 1;
      }
      SameShapes();
    }

    lemma AroundOne(first: Block?, kept: seq<Block>, b: Block, rest: seq<Block>, i: nat)
      requires IsList(first, kept + ([b] + rest)) && Distinct(kept + ([b] + rest)) && i < |kept + rest|
      ensures b.next == At(rest, 0) && (i != |kept| - 1 ==> (kept + rest)[i].next == At(kept + rest, i + 1))
      ensures kept != [] && i != |kept| - 1 ==> (kept + rest)[i] != kept[|kept| - 1]
    {
      var bs, cs := kept + ([b] + rest), kept + rest;
      assert bs[|kept|] == b && b.next == At(bs, |kept| + 1);
      var j := if i < |kept| then i else i + 1;
      assert bs[j] == cs[i] && bs[j].next == At(bs, j + 1);
      assert kept != [] ==> bs[|kept| - 1] == kept[|kept| - 1];
    }

    /** Takes b out of the list: prev is the link that points to it. */
    method Unlink(prev: Block?, b: Block, ghost kept: seq<Block>, ghost rest: seq<Block>)
      requires IsList(head, kept + ([b] + rest)) && prev == At(kept, |kept| - 1) && Distinct(kept + ([b] + rest))
      modifies this`head, (if prev == null then {} else {prev})`next
      ensures IsList(head, kept + rest) && b.next == At(rest, 0)
    {
      ghost var cs := kept + rest;
      assert (kept + ([b] + rest))[|kept|] == b;
      assert b.next == At(rest, 0) by {
        assert b.next == At(kept + ([b] + rest), |kept| + 1);
      }
      forall i | 0 <= i < |cs|
        ensures i != |kept| - 1 ==> cs[i].next == At(cs, i + 1) && (kept != [] ==> cs[i] != kept[|kept| - 1])
      {
        AroundOne(head, kept, b, rest, i);
      }
      hide Distinct;
      if prev == null {
        head := b.next;
      } else {
        prev.next := b.next;
      }
    }

    /** The sweep has dealt with bs[..n]; m is the set of marked positions. */
    ghost predicate Sweeping(bs: seq<Block>, m: set<nat>, fr: seq<Block>, n: nat, prev: Block?, b: Block?)
      requires n <= |bs|
      reads this, Current(bs, m, n)
    {
      var kept := Select(bs, m, n);
      && b == At(bs, n) && prev == At(kept, |kept| - 1) && IsList(head, Current(bs, m, n))
      && freed == fr + Rejected(bs, m, n) && liveCount == |kept| && liveBytes == TotalSize(kept)
    }

    /** The body of the sweep loop when the block is dead. */
    method DropBlock(ghost bs: seq<Block>, ghost m: set<nat>, ghost fr: seq<Block>, ghost n: nat, prev: Block?,
                     b: Block)
      requires n < |bs| && Distinct(bs) && Separate(bs) && Sweeping(bs, m, fr, n, prev, b) && n !in m
      modifies this`head, this`freed, bs`next
      ensures Sweeping(bs, m, fr, n + 1, prev, b.next)
    {
      hide IsList, Distinct, Separate, Select, Rejected, TotalSize, Current;
      ghost var kept := Select(bs, m, n);
      CurrentStep(bs, m, n);
      SelectStep(bs, m, n);
      SelectWithin(bs, m, n);
      NextOf(bs, m, n, b);
      assert prev != null ==> prev in bs;
      Unlink(prev, b, kept, bs[n + 1..]);
      freed := freed + [b];
      assert fr + Rejected(bs, m, n) + [b] == fr + (Rejected(bs, m, n) + [b]);
    }

    /** The body of the sweep loop when the block is marked. */
    method KeepBlock(ghost bs: seq<Block>, ghost m: set<nat>, ghost fr: seq<Block>, ghost n: nat, prev: Block?,
                     b: Block)
      requires n < |bs| && Distinct(bs) && Separate(bs) && Sweeping(bs, m, fr, n, prev, b) && n in m
      modifies this`liveCount, this`liveBytes
      ensures Sweeping(bs, m, fr, n + 1, b, b.next)
    {
      hide IsList, Distinct, Separate, Select, Rejected, TotalSize, Current;
      CurrentStep(bs, m, n);
      SelectStep(bs, m, n);
      NextOf(bs, m, n, b);
      liveCount := liveCount + 1;
      liveBytes := liveBytes + b.size;
    }

    lemma NextOf(bs: seq<Block>, m: set<nat>, n: nat, b: Block)
      requires n < |bs| && b == bs[n] && IsList(head, Current(bs, m, n))
      ensures b.next == At(bs, n + 1) == At(bs[n + 1..], 0) && b in bs
    {
      var k, c := |Select(bs, m, n)|, Current(bs, m, n);
      assert c[k] == b && c[k].next == At(c, k + 1);
      assert k + 1 < |c| ==> c[k + 1] == bs[n + 1];
    }

    method SweepList(ghost bs: seq<Block>, ghost m: set<nat>, ghost fr: seq<Block>) returns (ghost last: Block?)
      requires Distinct(bs) && Separate(bs) && Sweeping(bs, m, fr, 0, null, head)
      requires forall i: nat | i < |bs| :: bs[i].marked <==> i in m
      modifies this`head, this`freed, this`liveCount, this`liveBytes, bs`next
      ensures Sweeping(bs, m, fr, |bs|, last, null)
    {
      hide Sweeping, IsList, Select, Rejected, Distinct, Separate, TotalSize, Current;
      ghost var n := 0;
      var prev: Block? := null;
      var b := head;
      SweepingAt(bs, m, fr, 0, prev, b);
      while b != null
        invariant 0 <= n <= |bs| && b == At(bs, n) && Sweeping(bs, m, fr, n, prev, b)
        decreases |bs| - n
      {
        if !b.marked {
          DropBlock(bs, m, fr, n, prev, b);
        } else {
          KeepBlock(bs, m, fr, n, prev, b);
          prev := b;
        }
        b := b.next;
        SweepingAt(bs, m, fr, n + 1, prev, b);
        n := n + 1;
      }
      last := prev;
    }

    /** Unlinks every unmarked block, in list order, and counts what stays. */
    method SweepPhase()
      requires Valid()
      modifies this`head, this`blocks, this`freed, this`liveCount, this`liveBytes, blocks`next
      ensures Valid() && blocks == Select(old(blocks), old(Marked()), |old(blocks)|)
      ensures freed == old(freed) + Rejected(old(blocks), old(Marked()), |old(blocks)|)
      ensures liveCount == |blocks| && liveBytes == TotalSize(blocks)
    {
      hide Sweeping, IsList, Select, Rejected, Distinct, Separate, TotalSize;
      ghost var bs, m, fr := blocks, Marked(), freed;
      liveCount, liveBytes := 0, 0;
      SweepStarts(bs, m, fr);
      ghost var last := SweepList(bs, m, fr);
      SweepEnds(bs, m, fr, last, null);
      blocks := Select(bs, m, |bs|);
    }

    lemma RootHits(h: Heap, rs: seq<nat>)
      requires Valid() && h == Shapes(blocks) && nroots <= roots.Length && rs == Values(RootVars())
      requires AddressClosed(h, rs, Live(h, rs))
      ensures forall b, i | b in blocks && 0 <= i < nroots && Hits(b, rs[i]) ::
                exists k: nat :: k in Live(h, rs) && k < |blocks| && blocks[k] == b
    {
      hide Live, Values, IsList, Collector.Placed, Collector.RootTable;
      forall b, i | b in blocks && 0 <= i < nroots && Hits(b, rs[i])
        ensures exists k: nat :: k in Live(h, rs) && k < |blocks| && blocks[k] == b
      {
        var k: nat :| k < |blocks| && blocks[k] == b;
        assert h[k].payload <= rs[i] < h[k].payload + h[k].size;
      }
    }

    lemma WordHits(h: Heap, rs: seq<nat>)
      requires Valid() && h == Shapes(blocks) && AddressClosed(h, rs, Live(h, rs))
      ensures forall a: nat, b, i | a in Live(h, rs) && b in blocks && a < |blocks| && 0 <= i < |blocks[a].words|
                                    && Hits(b, blocks[a].words[i]) ::
                exists k: nat :: k in Live(h, rs) && k < |blocks| && blocks[k] == b
    {
      hide Live, IsList, Collector.Placed, Collector.RootTable;
      forall a: nat, b, i | a in Live(h, rs) && b in blocks && a < |blocks| && 0 <= i < |blocks[a].words|
                            && Hits(b, blocks[a].words[i])
        ensures exists k: nat :: k in Live(h, rs) && k < |blocks| && blocks[k] == b
      {
        var k: nat :| k < |blocks| && blocks[k] == b;
        assert h[k].payload <= h[a].words[i] < h[k].payload + h[k].size;
      }
    }

    /** Every block that an address leads to stays. */
    lemma KeptByAddress(h: Heap, rs: seq<nat>)
      requires Valid() && h == Shapes(blocks) && nroots <= roots.Length && rs == Values(RootVars())
      ensures KeepsHit(blocks, rs, Select(blocks, Live(h, rs), |blocks|))
    {
      hide Valid, Live, Shapes, Values, Select;
      ShapesDisjoint();
      LiveIsLeast(h, rs);
      SelectMembers(blocks, Live(h, rs), |blocks|);
      RootHits(h, rs);
      WordHits(h, rs);
    }

    /** gc_run: what is left is the old list filtered, in order, to exactly the
        blocks reachable from the roots, and the counters describe it. */
    method GcRun()
      requires Valid()
      modifies this`head, this`blocks, this`freed, this`liveCount, this`liveBytes, blocks`marked, blocks`next
      ensures Valid()
      ensures old(blocks) == [] ==> unchanged(this)
      ensures old(blocks) != [] ==>
                var live := Live(old(Shapes(blocks)), old(Values(RootVars())));
                && blocks == Select(old(blocks), live, |old(blocks)|)
                && freed == old(freed) + Rejected(old(blocks), live, |old(blocks)|)
                && liveCount == |blocks| && liveBytes == TotalSize(blocks) < 0x1_0000_0000
      ensures KeepsHit(old(blocks), old(Values(RootVars())), blocks)
    {
      HeadOf();
      if !inited || head == null {
        return;
      }
      hide Valid, Live, Shapes, Values, Select, Rejected, TotalSize, KeepsHit, Sweeping;
      ghost var h, rs := Shapes(blocks), Values(RootVars());
      KeptByAddress(h, rs);
      MarkPhase(h, rs);
      SweepPhase();
      SizesFit();
    }

    lemma HeadOf()
      requires Valid()
      ensures !inited || head == null <==> blocks == []
      ensures blocks == [] <==> head == null
      ensures nroots <= roots.Length
    {
    }

    /** The 32-bit byte counter cannot overflow. */
    lemma SizesFit()
      requires Valid()
      ensures heapStart <= heapEnd ==> TotalSize(blocks) <= heapEnd - heapStart
      ensures TotalSize(blocks) < 0x1_0000_0000
    {
      hide IsList, Distinct;
      if blocks != [] {
        assert InHeap(blocks[0]);
        TotalIsCovered(blocks, heapStart, heapEnd);
      }
    }

    method GcInit()
      requires Valid()
      modifies this`head, this`nroots, this`liveCount, this`liveBytes, this`inited
      ensures Valid() && inited
      ensures old(inited) ==> unchanged(this)
      ensures !old(inited) ==> RootVars() == [] && liveCount == liveBytes == 0
    {
      if inited {
        return;
      }
      head, nroots, liveCount, liveBytes, inited := null, 0, 0, 0, true;
    }

    /** What gc_alloc asks kmalloc for, in 32 bits. */
    function Request(size: nat): nat {
      (GC_HDR + size) % UINT_END
    }

    /** mem is where kmalloc found room for the request, or 0 when it failed; words is
        what the fresh payload happens to hold. A size within 16 of the end of 32 bits makes the request
        wrap, and the block that is entered is no block of the heap. */
    method GcAlloc(size: nat, mem: nat, words: seq<nat>) returns (p: nat)
      requires Valid() && |words| == size / WORD && size < UINT_END
      requires mem != 0 && size != 0 ==> heapStart <= mem && mem + Request(size) <= heapEnd
      requires mem != 0 ==> forall b | b in blocks ::
                 mem + Request(size) <= b.Payload() || b.Payload() + b.size <= mem + GC_HDR
      modifies this`head, this`nroots, this`liveCount, this`liveBytes, this`inited, this`blocks
      ensures inited && (Valid() <==> size == 0 || mem == 0 || GC_HDR + size < UINT_END)
      ensures RootTable() && RootVars() == if old(inited) then old(RootVars()) else []
      ensures size == 0 || mem == 0 ==> p == 0 && blocks == old(blocks)
      ensures size != 0 && mem != 0 ==>
                && p == mem + GC_HDR && |blocks| == |old(blocks)| + 1 && blocks[1..] == old(blocks)
                && blocks[0].Payload() == p && blocks[0].size == size && blocks[0].words == words && !blocks[0].marked
                && fresh(blocks[0])
      ensures old(inited) ==> liveCount == old(liveCount) && liveBytes == old(liveBytes)
    {
      if !inited {
        GcInit();
      }
      if size == 0 || mem == 0 {
        return 0;
      }
      var b := new Block(mem, size, words, head);
      head := b;
      p := b.Payload();
      ghost var bs := blocks;
      assert b !in bs;
      blocks := [b] + bs;
      hide Collector.Placed, Collector.RootTable;
      forall i | 0 <= i < |blocks|
        ensures blocks[i].next == At(blocks, i + 1)
      {
        if i > 0 {
          assert blocks[i] == bs[i - 1] && bs[i - 1].next == At(bs, i);
        }
      }
      if GC_HDR + size < UINT_END {
        InsideHeap(b);
        hide IsList;
        OneInFront(b, bs);
      } else {
        OutsideHeap(b);
        assert b in blocks;
      }
    }

    lemma InsideHeap(b: Block)
      requires heapStart <= b.addr && b.Payload() + b.size <= heapEnd && b.size >= 1
      ensures InHeap(b)
    {
    }

    lemma OutsideHeap(b: Block)
      requires GC_HDR + b.size >= UINT_END && heapEnd < UINT_END
      ensures !InHeap(b)
    {
    }

    method GcAddRoot(r: Root?)
      requires Valid()
      modifies roots, this`nroots
      ensures Valid()
      ensures RootVars() == if r == null || old(nroots) >= 64 || r in old(RootVars()) then old(RootVars())
                            else old(RootVars()) + [r]
    {
      if r == null || nroots >= MAX_ROOTS {
        return;
      }
      for i := 0 to nroots
        invariant unchanged(this) && unchanged(roots) && r !in roots[..i]
      {
        if roots[i] == r {
          assert roots[i] in RootVars();
          return;
        }
      }
      roots[nroots] := r;
      nroots := nroots + 1;
      assert roots[..nroots] == old(roots[..nroots]) + [r];
    }

    /** The last entry takes the place of the removed one. */
    method GcRemoveRoot(r: Root?)
      requires Valid()
      modifies roots, this`nroots
      ensures Valid()
      ensures r !in old(RootVars()) ==> RootVars() == old(RootVars())
      ensures forall x :: x in RootVars() <==> x in old(RootVars()) && x != r
    {
      var i := 0;
      while i < nroots
        invariant 0 <= i <= nroots && unchanged(this) && unchanged(roots) && r !in roots[..i]
        decreases nroots - i
      {
        if roots[i] == r {
          var n := nroots - 1;
          nroots := n;
          roots[i] := roots[n];
          ghost var was := old(roots[..nroots]);
          assert RootVars() == was[i := was[n]][..n];
          LastFillsIn(was, i);
          return;
        }
        i := i + 1;
      }
    }

    lemma SweepStarts(bs: seq<Block>, m: set<nat>, fr: seq<Block>)
      requires Valid() && bs == blocks && fr == freed && liveCount == liveBytes == 0
      ensures Sweeping(bs, m, fr, 0, null, head) && head == At(bs, 0)
    {
      assert Current(bs, m, 0) == bs;
      assert fr + Rejected(bs, m, 0) == fr;
    }

    lemma SweepEnds(bs: seq<Block>, m: set<nat>, fr: seq<Block>, prev: Block?, b: Block?)
      requires Distinct(bs) && Separate(bs) && Sweeping(bs, m, fr, |bs|, prev, b)
      ensures var kept := Select(bs, m, |bs|);
              IsList(head, kept) && Distinct(kept) && Separate(kept) && (forall x | x in kept :: x in bs)
              && freed == fr + Rejected(bs, m, |bs|) && liveCount == |kept| && liveBytes == TotalSize(kept)
    {
      var kept := Select(bs, m, |bs|);
      assert Current(bs, m, |bs|) == kept;
      SelectKeeps(bs, m, |bs|);
    }

    lemma SweepingAt(bs: seq<Block>, m: set<nat>, fr: seq<Block>, n: nat, prev: Block?, b: Block?)
      requires n <= |bs| && Sweeping(bs, m, fr, n, prev, b)
      ensures b == At(bs, n)
    {
    }
  }

  /** The list when the sweep has dealt with bs[..n]. */
  ghost function Current(bs: seq<Block>, m: set<nat>, n: nat): seq<Block>
    requires n <= |bs|
  {
    Select(bs, m, n) + bs[n..]
  }

  lemma CurrentStep(bs: seq<Block>, m: set<nat>, n: nat)
    requires n < |bs| && Distinct(bs) && Separate(bs)
    ensures Current(bs, m, n) == Select(bs, m, n) + ([bs[n]] + bs[n + 1..])
    ensures Distinct(Select(bs, m, n) + ([bs[n]] + bs[n + 1..]))
    ensures Current(bs, m, n + 1) == if n in m then Current(bs, m, n) else Select(bs, m, n) + bs[n + 1..]
  {
    SelectKeeps(bs, m, n);
    hide Separate, Distinct;
    assert bs[n..] == [bs[n]] + bs[n + 1..];
    assert Select(bs, m, n) + [bs[n]] + bs[n + 1..] == Select(bs, m, n) + ([bs[n]] + bs[n + 1..]);
  }

  lemma OneInFront(b: Block, bs: seq<Block>)
    requires Distinct(bs) && Separate(bs) && b !in bs && forall x | x in bs :: Apart(b, x)
    ensures Distinct([b] + bs) && Separate([b] + bs)
  {
    hide Apart;
    var s := [b] + bs;
    assert forall i | 0 < i < |s| :: s[i] == bs[i - 1];
  }

  lemma LastFillsIn<T>(s: seq<T>, i: nat)
    requires i < |s| && Distinct(s)
    ensures var t := s[i := s[|s| - 1]][..|s| - 1]; Distinct(t) && forall x :: x in t <==> x in s && x != s[i]
  {
    var n := |s| - 1;
    var t := s[i := s[n]][..n];
    forall x | x in s && x != s[i]
      ensures x in t
    {
      var k :| 0 <= k < |s| && s[k] == x;
      assert if k == n then t[i] == x else t[k] == x;
    }
  }

  ghost function Range(lo: nat, n: nat): (s: set<nat>)
    ensures |s| == n && forall a: nat :: a in s <==> lo <= a < lo + n
  {
    if n == 0 then {} else Range(lo, n - 1) + {lo + n - 1}
  }

  /** The addresses of the payloads of bs. */
  ghost function Covered(bs: seq<Block>): (s: set<nat>)
    ensures forall a | a in s :: exists b | b in bs :: a in Range(b.Payload(), b.size)
  {
    if bs == [] then {} else
      Covered(bs[..|bs| - 1]) + Range(bs[|bs| - 1].Payload(), bs[|bs| - 1].size)
  }

  lemma Joined(s: set<nat>, t: set<nat>)
    requires s !! t
    ensures |s + t| == |s| + |t|
  {
  }

  lemma {:induction false} CoveredSize(bs: seq<Block>)
    requires Separate(bs)
    ensures |Covered(bs)| == TotalSize(bs)
  {
    if bs != [] {
      var n := |bs| - 1;
      var b, front := bs[n], bs[..n];
      CoveredSize(front);
      LastApart(bs);
      hide Separate, Apart;
      Joined(Covered(front), Range(b.Payload(), b.size));
    }
  }

  lemma LastApart(bs: seq<Block>)
    requires bs != [] && Separate(bs)
    ensures Covered(bs[..|bs| - 1]) !! Range(bs[|bs| - 1].Payload(), bs[|bs| - 1].size)
  {
    var n := |bs| - 1;
    hide Separate, Covered, Range;
    forall a | a in Covered(bs[..n]) && a in Range(bs[n].Payload(), bs[n].size)
      ensures false
    {
      var b :| b in bs[..n] && a in Range(b.Payload(), b.size);
      var i :| 0 <= i < n && bs[i] == b;
      TwoApart(bs, i, n);
    }
  }

  lemma TwoApart(bs: seq<Block>, i: nat, j: nat)
    requires i < j < |bs| && Separate(bs)
    ensures Apart(bs[i], bs[j])
  {
  }

  lemma Subset(s: set<nat>, t: set<nat>)
    requires s <= t
    ensures |s| <= |t|
  {
    assert t == s + (t - s);
  }

  lemma TotalIsCovered(bs: seq<Block>, lo: nat, hi: nat)
    requires Separate(bs) && lo <= hi
    requires forall b | b in bs :: lo <= b.Payload() && b.Payload() + b.size <= hi
    ensures TotalSize(bs) <= hi - lo
  {
    CoveredSize(bs);
    hide Separate, Covered, Range, TotalSize;
    Subset(Covered(bs), Range(lo, hi - lo));
  }

  /** What survives never points at what was freed. */
  lemma SurvivorsPointToSurvivors(h: Heap, rs: seq<nat>, a: nat, k: nat)
    requires a in Live(h, rs) && k < |h[a].words|
    ensures Owner(h, h[a].words[k]) >= 0 ==> Owner(h, h[a].words[k]) in Live(h, rs)
  {
    if Owner(h, h[a].words[k]) >= 0 {
      Follow(h, rs, a, k, Owner(h, h[a].words[k]));
    }
  }

  lemma SelectStep(bs: seq<Block>, m: set<nat>, n: nat)
    requires n < |bs|
    ensures var k := Select(bs, m, n);
            if n in m then Select(bs, m, n + 1) == k + [bs[n]] && Rejected(bs, m, n + 1) == Rejected(bs, m, n)
                           && TotalSize(k + [bs[n]]) == TotalSize(k) + bs[n].size
            else Select(bs, m, n + 1) == k && Rejected(bs, m, n + 1) == Rejected(bs, m, n) + [bs[n]]
  {
    assert (Select(bs, m, n) + [bs[n]])[..|Select(bs, m, n)|] == Select(bs, m, n);
  }

  /** The blocks of bs[..n] at positions in m, in order. */
  ghost function Select(bs: seq<Block>, m: set<nat>, n: nat): seq<Block>
    requires n <= |bs|
  {
    if n == 0 then [] else Select(bs, m, n - 1) + if n - 1 in m then [bs[n - 1]] else []
  }

  /** The others. */
  ghost function Rejected(bs: seq<Block>, m: set<nat>, n: nat): seq<Block>
    requires n <= |bs|
  {
    if n == 0 then [] else Rejected(bs, m, n - 1) + if n - 1 !in m then [bs[n - 1]] else []
  }

  ghost function TotalSize(bs: seq<Block>): nat {
    if bs == [] then 0 else TotalSize(bs[..|bs| - 1]) + bs[|bs| - 1].size
  }

  lemma {:induction false} SelectMembers(bs: seq<Block>, m: set<nat>, n: nat)
    requires n <= |bs|
    ensures forall b :: b in Select(bs, m, n) <==> exists k: nat :: k in m && k < n && bs[k] == b
  {
    if n > 0 {
      SelectMembers(bs, m, n - 1);
    }
  }

  /** A kept block has as many kept blocks before it as lie before it in the list, and what
      is not kept is rejected: no block is lost or doubled, and the order stays. */
  lemma {:induction false} SelectAt(bs: seq<Block>, m: set<nat>, n: nat, i: nat)
    requires i < n <= |bs|
    ensures |Select(bs, m, i)| <= |Select(bs, m, n)| && |Rejected(bs, m, i)| <= |Rejected(bs, m, n)|
    ensures |Select(bs, m, n)| + |Rejected(bs, m, n)| == n
    ensures if i in m then |Select(bs, m, i)| < |Select(bs, m, n)| && Select(bs, m, n)[|Select(bs, m, i)|] == bs[i]
            else |Rejected(bs, m, i)| < |Rejected(bs, m, n)| && Rejected(bs, m, n)[|Rejected(bs, m, i)|] == bs[i]
  {
    if i < n - 1 {
      SelectAt(bs, m, n - 1, i);
    } else {
      Partition(bs, m, i);
    }
  }

  lemma {:induction false} Partition(bs: seq<Block>, m: set<nat>, n: nat)
    requires n <= |bs|
    ensures |Select(bs, m, n)| + |Rejected(bs, m, n)| == n
  {
    if n > 0 {
      Partition(bs, m, n - 1);
    }
  }

  lemma {:induction false} SelectWithin(bs: seq<Block>, m: set<nat>, n: nat)
    requires n <= |bs|
    ensures forall b | b in Select(bs, m, n) :: b in bs
  {
    if n > 0 {
      SelectWithin(bs, m, n - 1);
    }
  }

  lemma {:induction false} SelectKeeps(bs: seq<Block>, m: set<nat>, n: nat)
    requires n <= |bs| && Distinct(bs) && Separate(bs)
    ensures var r := Select(bs, m, n) + bs[n..]; Distinct(r) && Separate(r) && forall b | b in r :: b in bs
  {
    if n == 0 {
      assert Select(bs, m, 0) + bs[0..] == bs;
    } else {
      SelectKeeps(bs, m, n - 1);
      var r := Select(bs, m, n - 1);
      assert bs[n - 1..] == [bs[n - 1]] + bs[n..];
      if n - 1 in m {
        assert r + [bs[n - 1]] + bs[n..] == r + bs[n - 1..];
      } else {
        assert Select(bs, m, n) == r;
        DropOne(r, bs[n - 1], bs[n..]);
      }
    }
  }

  lemma DropOne(a: seq<Block>, x: Block, b: seq<Block>)
    requires Distinct(a + ([x] + b)) && Separate(a + ([x] + b))
    ensures Distinct(a + b) && Separate(a + b)
  {
    hide Apart;
    var s, t := a + ([x] + b), a + b;
    assert forall i | 0 <= i < |t| :: t[i] == s[if i < |a| then i else i + 1];
  }

  lemma NothingMarked(h: Heap, rs: seq<nat>)
    ensures AllReachable(h, rs, {}) && ClosedIn(h, {}, {})
  {
  }

  lemma FromRoot(h: Heap, rs: seq<nat>, i: nat, b: nat)
    requires i < |rs| && Owner(h, rs[i]) == b
    ensures Reachable(h, rs, b)
  {
    assert Rooted(h, rs, b);
    RootReachable(h, rs, b);
  }

  lemma JoinMarks(h: Heap, rs: seq<nat>, m1: set<nat>, m2: set<nat>)
    requires AllReachable(h, rs, m1) && ClosedIn(h, m1, m1) && m1 <= m2
    requires AllReachable(h, rs, m2 - m1) && ClosedIn(h, m2 - m1, m2)
    ensures AllReachable(h, rs, m2) && ClosedIn(h, m2, m2)
  {
    forall b: nat | b in m2
      ensures b in m1 || b in m2 - m1
    {
    }
  }

  lemma LiveMarked(h: Heap, rs: seq<nat>, m: set<nat>)
    requires AllReachable(h, rs, m) && ClosedIn(h, m, m)
    requires forall q | 0 <= q < |rs| && Owner(h, rs[q]) >= 0 :: Owner(h, rs[q]) in m
    ensures m == Live(h, rs)
  {
    ClosedHoldsLive(h, rs, m);
  }

  lemma NothingNew(h: Heap, rs: seq<nat>, m: set<nat>)
    ensures AllReachable(h, rs, m - m) && ClosedIn(h, m - m, m)
  {
  }

  lemma StartExploring(h: Heap, rs: seq<nat>, a: nat, m0: set<nat>, m: set<nat>)
    requires a < |h| && Reachable(h, rs, a) && m == m0 + {a}
    ensures Exploring(h, rs, a, m0, m) && Scanned(h, a, 0, m)
  {
    assert m - m0 - {a} == {};
  }

  lemma Follow(h: Heap, rs: seq<nat>, a: nat, k: nat, b: nat)
    requires a < |h| && k < |h[a].words| && Reachable(h, rs, a) && Owner(h, h[a].words[k]) == b
    ensures Reachable(h, rs, b)
  {
    assert Points(h, a, b);
    StepReachable(h, rs, a, b);
  }

  lemma ScanOne(h: Heap, a: nat, k: nat, m: set<nat>)
    requires a < |h| && k < |h[a].words| && Scanned(h, a, k, m)
    requires Owner(h, h[a].words[k]) >= 0 ==> Owner(h, h[a].words[k]) in m
    ensures Scanned(h, a, k + 1, m)
  {
  }
}
