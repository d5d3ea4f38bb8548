/** The heap as the collector sees it: blocks of words, any of which may be a
    pointer into the payload of a block. */
module HeapGraph {

  datatype Shape = Shape(payload: nat, size: nat, words: seq<nat>)
  {
    predicate Contains(p: nat) {
      payload <= p < payload + size
    }
  }

  type Heap = seq<Shape>

  /** The first block at or after index i whose payload holds address p, or -1. */
  function OwnerFrom(h: Heap, p: nat, i: nat): (r: int)
    requires i <= |h|
    ensures r == -1 || i <= r < |h|
    ensures r >= 0 ==> h[r].Contains(p)
    ensures forall j | i <= j < (if r < 0 then |h| else r) :: !h[j].Contains(p)
    decreases |h| - i
  {
    if i == |h| then -1 else if h[i].Contains(p) then i else OwnerFrom(h, p, i + 1)
  }

  function Owner(h: Heap, p: nat): (r: int)
    ensures -1 <= r < |h|
    ensures r >= 0 ==> h[r].Contains(p)
    ensures r < 0 ==> forall j | 0 <= j < |h| :: !h[j].Contains(p)
  {
    OwnerFrom(h, p, 0)
  }

  /** Some word of block a points into block b. */
  ghost predicate Points(h: Heap, a: nat, b: nat)
    requires a < |h|
  {
    exists k | 0 <= k < |h[a].words| :: Owner(h, h[a].words[k]) == b
  }

  ghost predicate Rooted(h: Heap, roots: seq<nat>, b: nat) {
    exists i | 0 <= i < |roots| :: Owner(h, roots[i]) == b
  }

  /** From a root to the last block of path, each block pointing to the next. */
  ghost predicate IsPath(h: Heap, roots: seq<nat>, path: seq<nat>) {
    && path != [] && (forall i | 0 <= i < |path| :: path[i] < |h|)
    && Rooted(h, roots, path[0])
    && (forall i | 0 < i < |path| :: Points(h, path[i - 1], path[i]))
  }

  ghost predicate Reachable(h: Heap, roots: seq<nat>, b: nat) {
    exists path: seq<nat> :: IsPath(h, roots, path) && path[|path| - 1] == b
  }

  ghost function Live(h: Heap, roots: seq<nat>): set<nat> {
    set b: nat | b < |h| && Reachable(h, roots, b)
  }

  lemma RootReachable(h: Heap, roots: seq<nat>, b: nat)
    requires b < |h| && Rooted(h, roots, b)
    ensures Reachable(h, roots, b)
  {
    assert IsPath(h, roots, [b]);
  }

  lemma StepReachable(h: Heap, roots: seq<nat>, a: nat, b: nat)
    requires Reachable(h, roots, a) && a < |h| && b < |h| && Points(h, a, b)
    ensures Reachable(h, roots, b)
  {
    var path: seq<nat> :| IsPath(h, roots, path) && path[|path| - 1] == a;
    var longer := path + [b];
    forall i | 0 < i < |longer|
      ensures Points(h, longer[i - 1], longer[i])
    {
      if i < |path| {
        assert Points(h, path[i - 1], path[i]);
      }
    }
    assert IsPath(h, roots, longer);
  }

  /** A set that holds the rooted blocks and is closed under pointing holds everything reachable. */
  lemma {:induction false} ClosedHoldsPath(h: Heap, roots: seq<nat>, s: set<nat>, path: seq<nat>)
    requires IsPath(h, roots, path)
    requires forall b: nat | b < |h| && Rooted(h, roots, b) :: b in s
    requires forall a: nat, b: nat | a in s && a < |h| && b < |h| && Points(h, a, b) :: b in s
    ensures path[|path| - 1] in s
    decreases |path|
  {
    if |path| > 1 {
      var shorter := path[..|path| - 1];
      assert IsPath(h, roots, shorter) by {
        forall i | 0 < i < |shorter|
          ensures Points(h, shorter[i - 1], shorter[i])
        {
          assert Points(h, path[i - 1], path[i]);
        }
      }
      ClosedHoldsPath(h, roots, s, shorter);
      assert Points(h, path[|path| - 2], path[|path| - 1]);
    }
  }

  lemma ClosedHoldsLive(h: Heap, roots: seq<nat>, s: set<nat>)
    requires forall b: nat | b < |h| && Rooted(h, roots, b) :: b in s
    requires forall a: nat, b: nat | a in s && a < |h| && b < |h| && Points(h, a, b) :: b in s
    ensures Live(h, roots) <= s
  {
    forall b | b in Live(h, roots)
      ensures b in s
    {
      var path: seq<nat> :| IsPath(h, roots, path) && path[|path| - 1] == b;
      ClosedHoldsPath(h, roots, s, path);
    }
  }

  /** Every block that a block of s points to is in m. */
  ghost predicate ClosedIn(h: Heap, s: set<nat>, m: set<nat>) {
    forall a: nat, b: nat | a in s && a < |h| && b < |h| && Points(h, a, b) :: b in m
  }

  ghost predicate AllReachable(h: Heap, roots: seq<nat>, s: set<nat>) {
    forall b: nat | b in s :: b < |h| && Reachable(h, roots, b)
  }

  /** The first k words of block a point to blocks of m only. */
  ghost predicate Scanned(h: Heap, a: nat, k: nat, m: set<nat>)
    requires a < |h|
  {
    forall q | 0 <= q < k && q < |h[a].words| && Owner(h, h[a].words[q]) >= 0 :: Owner(h, h[a].words[q]) in m
  }

  /** What marking from m0 to m has explored, apart from block a which is being scanned. */
  ghost predicate Exploring(h: Heap, roots: seq<nat>, a: nat, m0: set<nat>, m: set<nat>) {
    && m0 <= m && a in m && AllReachable(h, roots, m - m0) && ClosedIn(h, m - m0 - {a}, m)
  }

  /** A nested marking from m1 to m2 keeps what was explored before. */
  lemma ExploreFurther(h: Heap, roots: seq<nat>, a: nat, k: nat, m0: set<nat>, m1: set<nat>, m2: set<nat>)
    requires a < |h| && Exploring(h, roots, a, m0, m1) && Scanned(h, a, k, m1)
    requires m1 <= m2 && AllReachable(h, roots, m2 - m1) && ClosedIn(h, m2 - m1, m2)
    ensures Exploring(h, roots, a, m0, m2) && Scanned(h, a, k, m2)
  {
    forall b: nat | b in m2 - m0
      ensures b in m1 - m0 || b in m2 - m1
    {
    }
    forall b: nat | b in m2 - m0 - {a}
      ensures b in m1 - m0 - {a} || b in m2 - m1
    {
    }
  }

  /** Once all words of a are scanned, everything newly marked is closed. */
  lemma Explored(h: Heap, roots: seq<nat>, a: nat, m0: set<nat>, m: set<nat>)
    requires a < |h| && Exploring(h, roots, a, m0, m) && Scanned(h, a, |h[a].words|, m)
    ensures AllReachable(h, roots, m - m0) && ClosedIn(h, m - m0, m)
  {
    forall b: nat | b < |h| && Points(h, a, b)
      ensures b in m
    {
      var k :| 0 <= k < |h[a].words| && Owner(h, h[a].words[k]) == b;
    }
  }

  // ---- the same with addresses alone ----

  /** Payloads do not overlap. */
  ghost predicate Disjoint(h: Heap) {
    forall i, j | 0 <= i < j < |h| ::
      h[i].payload + h[i].size <= h[j].payload || h[j].payload + h[j].size <= h[i].payload
  }

  /** Every byte of a payload belongs to its block, first byte and interior alike. */
  lemma {:induction false} OwnerOfByte(h: Heap, i: nat, k: nat)
    requires Disjoint(h) && i < |h| && k < h[i].size
    ensures Owner(h, h[i].payload + k) == i
  {
  }

  /** An address in no payload, and no other, has no owner. */
  lemma {:induction false} OwnerOfNone(h: Heap, p: nat)
    ensures Owner(h, p) == -1 <==> forall i | 0 <= i < |h| :: p < h[i].payload || h[i].payload + h[i].size <= p
  {
    var o := Owner(h, p);
    if o >= 0 {
      assert h[o].Contains(p);
    }
  }

  /** s holds every block that a root holds an address of and every block that a word of a
      block in s holds an address of. */
  ghost predicate AddressClosed(h: Heap, roots: seq<nat>, s: set<nat>) {
    && (forall b: nat, j | b < |h| && 0 <= j < |roots|
                           && h[b].payload <= roots[j] < h[b].payload + h[b].size :: b in s)
    && (forall a: nat, b: nat, j | a in s && a < |h| && b < |h| && 0 <= j < |h[a].words|
                                   && h[b].payload <= h[a].words[j] < h[b].payload + h[b].size :: b in s)
  }

  /** The live blocks are the least set that is closed in this sense. */
  lemma {:induction false} LiveIsLeast(h: Heap, roots: seq<nat>)
    requires Disjoint(h)
    ensures AddressClosed(h, roots, Live(h, roots))
    ensures forall s | AddressClosed(h, roots, s) :: Live(h, roots) <= s
  {
    hide Live, Reachable, Owner;
    RootsLive(h, roots);
    WordsLive(h, roots);
    forall s | AddressClosed(h, roots, s)
      ensures Live(h, roots) <= s
    {
      ClosedByOwners(h, roots, s);
      ClosedHoldsLive(h, roots, s);
    }
  }

  lemma {:induction false} RootsLive(h: Heap, roots: seq<nat>)
    requires Disjoint(h)
    ensures forall b: nat, j | b < |h| && 0 <= j < |roots|
                               && h[b].payload <= roots[j] < h[b].payload + h[b].size :: b in Live(h, roots)
  {
    hide Reachable, Owner;
    forall b: nat, j | b < |h| && 0 <= j < |roots| && h[b].payload <= roots[j] < h[b].payload + h[b].size
      ensures b in Live(h, roots)
    {
      OwnerOfByte(h, b, roots[j] - h[b].payload);
      RootReachable(h, roots, b);
    }
  }

  lemma {:induction false} WordsLive(h: Heap, roots: seq<nat>)
    requires Disjoint(h)
    ensures forall a: nat, b: nat, j | a in Live(h, roots) && a < |h| && b < |h| && 0 <= j < |h[a].words|
                                       && h[b].payload <= h[a].words[j] < h[b].payload + h[b].size ::
              b in Live(h, roots)
  {
    hide Reachable, Owner;
    forall a: nat, b: nat, j | a in Live(h, roots) && a < |h| && b < |h| && 0 <= j < |h[a].words|
                               && h[b].payload <= h[a].words[j] < h[b].payload + h[b].size
      ensures b in Live(h, roots)
    {
      OwnerOfByte(h, b, h[a].words[j] - h[b].payload);
      assert Points(h, a, b);
      StepReachable(h, roots, a, b);
    }
  }

  lemma {:induction false} ClosedByOwners(h: Heap, roots: seq<nat>, s: set<nat>)
    requires AddressClosed(h, roots, s)
    ensures forall b: nat | b < |h| && Rooted(h, roots, b) :: b in s
    ensures forall a: nat, b: nat | a in s && a < |h| && b < |h| && Points(h, a, b) :: b in s
  {
    hide Owner;
    forall b: nat | b < |h| && Rooted(h, roots, b)
      ensures b in s
    {
      var j :| 0 <= j < |roots| && Owner(h, roots[j]) == b;
      assert h[b].Contains(roots[j]);
    }
    forall a: nat, b: nat | a in s && a < |h| && b < |h| && Points(h, a, b)
      ensures b in s
    {
      var j :| 0 <= j < |h[a].words| && Owner(h, h[a].words[j]) == b;
      assert h[b].Contains(h[a].words[j]);
    }
  }
}
