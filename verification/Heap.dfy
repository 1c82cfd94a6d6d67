/**
  The BDK heap: a first-fit allocator whose node headers live in the memory it
  hands out.  `Block` is what a header describes; `Tiles` says that the blocks
  cover the arena without gap or overlap; `Linked` says that the in-band headers
  in memory are a faithful doubly linked list of those blocks.
*/
module Heap {
  const HDR: int := 32                    // sizeof(hnode_t)
  const SPLIT_MIN: int := 128             // sizeof(hnode_t) << 2
  const TOP: int := 0x1_0000_0000         // addresses are u32
  const NULL: int := 0

  // RAM: the 32-bit word at each 4-aligned address.
  type Mem = int -> int

  function Store(m: Mem, a: int, w: int): Mem {
    (x: int) => if x == a then w else m(x)
  }

  datatype Block = Block(addr: int, size: int, used: bool) {
    function Payload(): int { addr + HDR }
    function Limit(): int { addr + HDR + size }
  }

  // ALIGN(size, sizeof(hnode_t)) on a u32, wrap-around included.
  function Align(size: int): int
  {
    (size + HDR - 1) % TOP / HDR * HDR
  }

  lemma AlignWhole(size: int)
    ensures 0 <= Align(size) && Align(size) % HDR == 0
  {
  }

  // ----- the shape of the block list -----

  predicate WholeLines(b: Block) {
    b.size % HDR == 0
  }

  ghost predicate Tiles(start: int, bs: seq<Block>) {
    && (forall i {:trigger WholeLines(bs[i])} :: 0 <= i < |bs| ==> WholeLines(bs[i]))
    && (forall i :: 0 <= i < |bs| ==> bs[i].size >= 0)
    && (|bs| > 0 ==> bs[0].addr == start)
    && (forall i, j :: 0 <= i && j == i + 1 && j < |bs| ==> bs[j].addr == bs[i].Limit())
  }

  function End(start: int, bs: seq<Block>): int {
    if bs == [] then start else bs[|bs| - 1].Limit()
  }

  ghost predicate NoAdjacentFree(bs: seq<Block>) {
    forall i, j :: 0 <= i && j == i + 1 && j < |bs| ==> bs[i].used || bs[j].used
  }

  // The blocks in use: what the callers of malloc can see.
  ghost function Live(bs: seq<Block>): set<Block> {
    set b | b in bs && b.used
  }

  lemma {:induction false} TilesDisjoint(start: int, bs: seq<Block>, i: int, j: int)
    requires Tiles(start, bs)
    requires 0 <= i < j < |bs|
    ensures bs[i].Limit() <= bs[j].addr
    decreases j
  {
    if i < j - 1 {
      TilesDisjoint(start, bs, i, j - 1);
    }
  }

  lemma {:induction false} TilesAligned(start: int, bs: seq<Block>, i: int)
    requires Tiles(start, bs) && start % HDR == 0
    requires 0 <= i < |bs|
    ensures bs[i].addr % HDR == 0 && start <= bs[i].addr && bs[i].Limit() <= End(start, bs)
    decreases i
  {
    if i > 0 {
      TilesAligned(start, bs, i - 1);
      assert WholeLines(bs[i - 1]);
      assert bs[i].addr == bs[i - 1].Limit();
    }
    if i < |bs| - 1 {
      TilesDisjoint(start, bs, i, |bs| - 1);
    }
  }

  // ----- first fit -----

  predicate Fits(b: Block, size: int) {
    !b.used && size <= b.size
  }

  function FirstFit(bs: seq<Block>, size: int): (k: nat)
    ensures k <= |bs|
    ensures forall i :: 0 <= i < k ==> !Fits(bs[i], size)
    ensures k < |bs| ==> Fits(bs[k], size)
  {
    if bs == [] then 0
    else
      var k := FirstFit(bs[..|bs| - 1], size);
      if k < |bs| - 1 then k
      else if Fits(bs[|bs| - 1], size) then |bs| - 1
      else |bs|
  }

  // What the fitting block b becomes when size bytes are taken from it.
  function Carve(b: Block, size: int): seq<Block> {
    if b.size - size >= SPLIT_MIN then
      [Block(b.addr, size, true), Block(b.addr + HDR + size, b.size - size - HDR, false)]
    else
      [Block(b.addr, b.size, true)]
  }

  function AllocBlocks(start: int, bs: seq<Block>, size: int): seq<Block> {
    var k := FirstFit(bs, size);
    if k < |bs| then bs[..k] + Carve(bs[k], size) + bs[k + 1..]
    else bs + [Block(End(start, bs), size, true)]
  }

  function AllocAddr(start: int, bs: seq<Block>, size: int): int {
    var k := FirstFit(bs, size);
    if k < |bs| then bs[k].Payload() else End(start, bs) + HDR
  }

  // ----- coalescing -----

  function Absorb(done: seq<Block>, b: Block): seq<Block> {
    if done != [] && !done[|done| - 1].used && !b.used then
      var p := done[|done| - 1];
      done[..|done| - 1] + [Block(p.addr, p.size + b.size + HDR, false)]
    else
      done + [b]
  }

  function Coalesce(bs: seq<Block>): seq<Block> {
    if bs == [] then [] else Absorb(Coalesce(bs[..|bs| - 1]), bs[|bs| - 1])
  }

  function Freed(b: Block): Block { b.(used := false) }

  function FreeBlocks(bs: seq<Block>, k: int): seq<Block>
    requires 0 <= k < |bs|
  {
    Coalesce(bs[k := Freed(bs[k])])
  }

  // ----- the in-band headers -----

  function PrevAddr(bs: seq<Block>, i: int): int {
    if 0 < i <= |bs| then bs[i - 1].addr else NULL
  }

  function NextAddr(bs: seq<Block>, i: int): int {
    if 0 <= i < |bs| - 1 then bs[i + 1].addr else NULL
  }

  // Node i's header words: used, size, prev, next.
  ghost predicate Node(m: Mem, bs: seq<Block>, i: int) {
    0 <= i < |bs| &&
    var a := bs[i].addr;
    && (m(a) != 0 <==> bs[i].used)
    && m(a + 4) == bs[i].size
    && m(a + 8) == PrevAddr(bs, i)
    && m(a + 12) == NextAddr(bs, i)
  }

  ghost predicate Linked(m: Mem, bs: seq<Block>) {
    forall i {:trigger Node(m, bs, i)} :: 0 <= i < |bs| ==> Node(m, bs, i)
  }

  // Every payload word of b is the same in m and m'.
  ghost predicate SamePayload(m: Mem, m': Mem, b: Block) {
    forall x :: b.Payload() <= x < b.Limit() ==> m'(x) == m(x)
  }

  ghost predicate KeepsLive(m: Mem, m': Mem, bs: seq<Block>) {
    forall i :: 0 <= i < |bs| && bs[i].used ==> SamePayload(m, m', bs[i])
  }

  // ----- rewriting one segment of the list -----

  // Memory changed only in [lo, hi) and in the prev word of the header at hi.
  ghost predicate SameAround(m: Mem, m': Mem, lo: int, hi: int) {
    forall x :: (x < lo || hi <= x) && x != hi + 8 ==> m'(x) == m(x)
  }

  // bs with the n blocks from k on replaced by seg.
  function Splice(bs: seq<Block>, k: int, n: int, seg: seq<Block>): seq<Block>
    requires 0 <= k && 0 <= n && k + n <= |bs|
  {
    bs[..k] + seg + bs[k + n..]
  }

  // Headers before the segment and after it survive a rewrite of the segment.
  lemma RelinkNode(start: int, bs: seq<Block>, m: Mem, k: int, n: int, seg: seq<Block>, m': Mem, i: int)
    requires Tiles(start, bs) && Linked(m, bs)
    requires 0 <= k && 1 <= n && k + n <= |bs| && seg != [] && seg[0].addr == bs[k].addr
    requires SameAround(m, m', bs[k].addr, bs[k + n - 1].Limit())
    requires k + n < |bs| ==> m'(bs[k + n].addr + 8) == seg[|seg| - 1].addr
    requires 0 <= i < k || k + |seg| <= i < |Splice(bs, k, n, seg)|
    ensures Node(m', Splice(bs, k, n, seg), i)
  {
    if i < k {
      assert Node(m, bs, i);
      TilesDisjoint(start, bs, i, k);
      if 1 < n { TilesDisjoint(start, bs, k, k + n - 1); }
    } else {
      var o := i - |seg| + n;
      assert Node(m, bs, o);
      TilesDisjoint(start, bs, k + n - 1, o);
      if k + n < o { TilesDisjoint(start, bs, k + n, o); }
    }
  }

  lemma Relink(start: int, bs: seq<Block>, m: Mem, k: int, n: int, seg: seq<Block>, m': Mem)
    requires Tiles(start, bs) && Linked(m, bs)
    requires 0 <= k && 1 <= n && k + n <= |bs| && seg != [] && seg[0].addr == bs[k].addr
    requires SameAround(m, m', bs[k].addr, bs[k + n - 1].Limit())
    requires k + n < |bs| ==> m'(bs[k + n].addr + 8) == seg[|seg| - 1].addr
    requires forall i :: k <= i < k + |seg| ==> Node(m', Splice(bs, k, n, seg), i)
    ensures Linked(m', Splice(bs, k, n, seg))
  {
    forall i | 0 <= i < |Splice(bs, k, n, seg)|
      ensures Node(m', Splice(bs, k, n, seg), i)
    {
      if i < k || k + |seg| <= i {
        RelinkNode(start, bs, m, k, n, seg, m', i);
      }
    }
  }

  lemma RewriteKeepsLive(start: int, bs: seq<Block>, m: Mem, k: int, n: int, m': Mem)
    requires Tiles(start, bs) && 0 <= k && 1 <= n && k + n <= |bs|
    requires SameAround(m, m', bs[k].addr, bs[k + n - 1].Limit())
    requires forall i :: k <= i < k + n && bs[i].used ==> SamePayload(m, m', bs[i])
    ensures KeepsLive(m, m', bs)
  {
    forall i | 0 <= i < |bs| && bs[i].used
      ensures SamePayload(m, m', bs[i])
    {
      if i < k { TilesDisjoint(start, bs, i, k); }
      if 1 < n { TilesDisjoint(start, bs, k, k + n - 1); }
      if k + n <= i { TilesDisjoint(start, bs, k + n - 1, i); }
    }
  }

  lemma SplitLinked(start: int, bs: seq<Block>, m: Mem, k: int, size: int, m': Mem)
    requires Tiles(start, bs) && Linked(m, bs)
    requires 0 <= k < |bs| && !bs[k].used && bs[k].size - size >= SPLIT_MIN && 0 <= size
    requires SameAround(m, m', bs[k].addr, bs[k].Limit())
    requires var a := bs[k].addr; var n := a + HDR + size;
             && m'(a) == 1 && m'(a + 4) == size && m'(a + 8) == m(a + 8) && m'(a + 12) == n
             && m'(n) == 0 && m'(n + 4) == bs[k].size - size - HDR && m'(n + 8) == a && m'(n + 12) == m(a + 12)
             && (k + 1 < |bs| ==> m'(bs[k + 1].addr + 8) == n)
    ensures Linked(m', Splice(bs, k, 1, Carve(bs[k], size)))
    ensures KeepsLive(m, m', bs)
  {
    var seg := Carve(bs[k], size);
    assert Node(m, bs, k);
    assert Node(m', Splice(bs, k, 1, seg), k);
    assert Node(m', Splice(bs, k, 1, seg), k + 1);
    Relink(start, bs, m, k, 1, seg, m');
    RewriteKeepsLive(start, bs, m, k, 1, m');
  }

  // A rewrite of node k's own used and size words.
  lemma OverwriteLinked(start: int, bs: seq<Block>, m: Mem, k: int, b: Block, m': Mem)
    requires Tiles(start, bs) && Linked(m, bs)
    requires 0 <= k < |bs| && b.addr == bs[k].addr && b.size == bs[k].size
    requires forall x :: x != b.addr && x != b.addr + 4 ==> m'(x) == m(x)
    requires (m'(b.addr) != 0 <==> b.used) && m'(b.addr + 4) == b.size
    ensures Linked(m', Splice(bs, k, 1, [b]))
    ensures KeepsLive(m, m', bs)
  {
    assert Node(m, bs, k);
    if k + 1 < |bs| { assert Node(m, bs, k + 1); }
    assert Node(m', Splice(bs, k, 1, [b]), k);
    Relink(start, bs, m, k, 1, [b], m');
    RewriteKeepsLive(start, bs, m, k, 1, m');
  }

  lemma CarveTiles(start: int, bs: seq<Block>, k: int, size: int)
    requires Tiles(start, bs) && 0 <= k < |bs| && Fits(bs[k], size) && 0 <= size && size % HDR == 0
    ensures Tiles(start, Splice(bs, k, 1, Carve(bs[k], size)))
    ensures End(start, Splice(bs, k, 1, Carve(bs[k], size))) == End(start, bs)
  {
    var bs' := Splice(bs, k, 1, Carve(bs[k], size));
    assert WholeLines(bs[k]);
    forall i | 0 <= i < |bs'| ensures WholeLines(bs'[i]) {
      if k + 1 < i && |bs'| == |bs| + 1 { assert WholeLines(bs[i - 1]); }
      if (k < i && |bs'| == |bs|) || i < k { assert WholeLines(bs[i]); }
    }
  }

  // Only the last node's next word and the new header beyond the end change.
  ghost predicate AppendWords(m: Mem, m': Mem, a: int, n: int, size: int) {
    && (forall x :: x != a + 12 && !(n <= x < n + HDR) ==> m'(x) == m(x))
    && m'(n) == 1 && m'(n + 4) == size && m'(n + 8) == a && m'(n + 12) == NULL && m'(a + 12) == n
  }

  lemma AppendNode(start: int, bs: seq<Block>, m: Mem, size: int, m': Mem, i: int)
    requires Tiles(start, bs) && Linked(m, bs) && 0 <= i < |bs|
    requires AppendWords(m, m', bs[|bs| - 1].addr, End(start, bs), size)
    ensures Node(m', bs + [Block(End(start, bs), size, true)], i) && SamePayload(m, m', bs[i])
  {
    assert Node(m, bs, i);
    if i < |bs| - 1 { TilesDisjoint(start, bs, i, |bs| - 1); }
  }

  lemma AppendLinked(start: int, bs: seq<Block>, m: Mem, size: int, m': Mem)
    requires Tiles(start, bs) && Linked(m, bs) && bs != []
    requires AppendWords(m, m', bs[|bs| - 1].addr, End(start, bs), size)
    ensures Linked(m', bs + [Block(End(start, bs), size, true)])
    ensures KeepsLive(m, m', bs)
  {
    var bs' := bs + [Block(End(start, bs), size, true)];
    forall i | 0 <= i < |bs'|
      ensures Node(m', bs', i)
    {
      if i < |bs| { AppendNode(start, bs, m, size, m', i); }
    }
    forall i | 0 <= i < |bs|
      ensures SamePayload(m, m', bs[i])
    {
      AppendNode(start, bs, m, size, m', i);
    }
  }

  lemma FreedTiles(start: int, bs: seq<Block>, k: int)
    requires Tiles(start, bs) && 0 <= k < |bs|
    ensures var bs' := Splice(bs, k, 1, [Freed(bs[k])]);
            && bs' == bs[k := Freed(bs[k])]
            && Tiles(start, bs') && End(start, bs') == End(start, bs)
            && Live(bs') == Live(bs) - {bs[k]}
  {
    var bs' := bs[k := Freed(bs[k])];
    forall i | 0 <= i < |bs'| ensures WholeLines(bs'[i]) { assert WholeLines(bs[i]); }
    forall b | b in Live(bs) && b != bs[k] ensures b in Live(bs') {
      var i :| 0 <= i < |bs| && bs[i] == b;
      assert bs'[i] == b;
    }
    forall b | b in Live(bs') ensures b in Live(bs) && b != bs[k] {
      var i :| 0 <= i < |bs'| && bs'[i] == b;
      assert bs[i] == b;
      if i < k { TilesDisjoint(start, bs, i, k); } else { TilesDisjoint(start, bs, k, i); }
    }
  }

  // ----- coalescing is the canonical form of a tiling -----

  lemma TilesConcat(start: int, a: seq<Block>, b: seq<Block>)
    ensures Tiles(start, a + b) <==> Tiles(start, a) && Tiles(End(start, a), b)
    ensures End(start, a + b) == End(End(start, a), b)
  {
    var c := a + b;
    assert forall i :: 0 <= i < |a| ==> c[i] == a[i];
    assert forall i :: 0 <= i < |b| ==> c[|a| + i] == b[i];
    if Tiles(start, c) {
      forall i | 0 <= i < |a| ensures WholeLines(a[i]) { assert WholeLines(c[i]); }
      forall i | 0 <= i < |b| ensures WholeLines(b[i]) { assert WholeLines(c[|a| + i]); }
      forall i, j | 0 <= i && j == i + 1 && j < |b| ensures b[j].addr == b[i].Limit() {
        assert c[|a| + j].addr == c[|a| + i].Limit();
      }
    }
    if Tiles(start, a) && Tiles(End(start, a), b) {
      forall i | 0 <= i < |c| ensures WholeLines(c[i]) && c[i].size >= 0 {
        if i < |a| { assert WholeLines(a[i]); } else { assert WholeLines(b[i - |a|]); }
      }
      forall i, j | 0 <= i && j == i + 1 && j < |c| ensures c[j].addr == c[i].Limit() {
        if |a| <= i { assert b[j - |a|].addr == b[i - |a|].Limit(); }
      }
    }
  }

  lemma TilesOne(at: int, b: Block)
    ensures Tiles(at, [b]) <==> WholeLines(b) && b.size >= 0 && b.addr == at
    ensures End(at, [b]) == b.Limit()
  {
    assert [b][0] == b;
    if Tiles(at, [b]) { assert WholeLines([b][0]); }
  }

  // Absorbing b keeps the tiling, its end and the live blocks.
  lemma AbsorbTiles(start: int, done: seq<Block>, b: Block)
    requires Tiles(start, done) && Tiles(End(start, done), [b])
    ensures Tiles(start, Absorb(done, b)) && End(start, Absorb(done, b)) == b.Limit()
  {
    hide Tiles;
    TilesOne(End(start, done), b);
    TilesConcat(start, done, [b]);
    if Absorb(done, b) != done + [b] {
      var l := |done| - 1;
      var p, at := Block(done[l].addr, done[l].size + b.size + HDR, false), End(start, done[..l]);
      assert done == done[..l] + [done[l]];
      TilesConcat(start, done[..l], [done[l]]);
      TilesOne(at, done[l]);
      TilesOne(at, p);
      TilesConcat(start, done[..l], [p]);
    }
  }

  lemma AbsorbStep(start: int, done: seq<Block>, b: Block)
    requires Tiles(start, done) && Tiles(End(start, done), [b])
    ensures Tiles(start, Absorb(done, b)) && End(start, Absorb(done, b)) == b.Limit()
    ensures Live(Absorb(done, b)) == Live(done + [b])
    ensures NoAdjacentFree(done) ==> NoAdjacentFree(Absorb(done, b))
  {
    hide Tiles, End;
    AbsorbTiles(start, done, b);
    if Absorb(done, b) != done + [b] {
      assert done == done[..|done| - 1] + [done[|done| - 1]];
    }
  }

  lemma {:induction false} CoalesceCanonical(start: int, bs: seq<Block>)
    requires Tiles(start, bs)
    ensures Tiles(start, Coalesce(bs)) && NoAdjacentFree(Coalesce(bs))
    ensures End(start, Coalesce(bs)) == End(start, bs)
    ensures Live(Coalesce(bs)) == Live(bs)
  {
    if bs != [] {
      var l := |bs| - 1;
      assert bs == bs[..l] + [bs[l]];
      TilesConcat(start, bs[..l], [bs[l]]);
      CoalesceCanonical(start, bs[..l]);
      AbsorbStep(start, Coalesce(bs[..l]), bs[l]);
      LiveConcat(bs[..l], [bs[l]]);
      LiveConcat(Coalesce(bs[..l]), [bs[l]]);
    }
  }

  lemma LiveConcat(a: seq<Block>, b: seq<Block>)
    ensures Live(a + b) == Live(a) + Live(b)
  {
  }

  // Free node k joins its free predecessor.
  lemma MergeLinked(start: int, bs: seq<Block>, m: Mem, k: int, m': Mem)
    requires Tiles(start, bs) && Linked(m, bs)
    requires 0 < k < |bs| && !bs[k - 1].used && !bs[k].used
    requires SameAround(m, m', bs[k - 1].addr, bs[k].Limit())
    requires var p, a := bs[k - 1].addr, bs[k].addr;
             && m'(p) == m(p) && m'(p + 4) == m(p + 4) + m(a + 4) + HDR && m'(p + 8) == m(p + 8) && m'(p + 12) == m(a + 12)
             && (k + 1 < |bs| ==> m'(bs[k + 1].addr + 8) == p)
    ensures var seg := [Block(bs[k - 1].addr, bs[k - 1].size + bs[k].size + HDR, false)];
            Linked(m', Splice(bs, k - 1, 2, seg))
    ensures KeepsLive(m, m', bs)
  {
    var seg := [Block(bs[k - 1].addr, bs[k - 1].size + bs[k].size + HDR, false)];
    assert Node(m, bs, k - 1) && Node(m, bs, k);
    assert Node(m', Splice(bs, k - 1, 2, seg), k - 1);
    Relink(start, bs, m, k - 1, 2, seg, m');
    RewriteKeepsLive(start, bs, m, k - 1, 2, m');
  }

  // What the headers say of node k and its neighbours.
  lemma Around(start: int, bs: seq<Block>, m: Mem, k: int)
    requires 0 < start && start % HDR == 0 && Tiles(start, bs) && Linked(m, bs) && 0 <= k < |bs|
    ensures var a := bs[k].addr;
            && (m(a) == 0 <==> !bs[k].used) && m(a + 12) == NextAddr(bs, k) && a + HDR <= bs[k].Limit()
            && m(a + 8) == (if k > 0 then bs[k - 1].addr else NULL)
            && (k + 1 < |bs| ==> bs[k + 1].addr == bs[k].Limit() != NULL)
    ensures k > 0 ==>
              var p := bs[k - 1].addr;
              p != NULL && p + HDR <= bs[k].addr && (m(p) == 0 <==> !bs[k - 1].used)
  {
    assert Node(m, bs, k);
    if k > 0 {
      assert Node(m, bs, k - 1);
      TilesAligned(start, bs, k - 1);
    }
    if k + 1 < |bs| { TilesAligned(start, bs, k + 1); }
  }

  // Keeping the live blocks of bs keeps those of any list with no more of them.
  lemma KeepsLiveSubset(m: Mem, m': Mem, bs: seq<Block>, bs': seq<Block>)
    requires KeepsLive(m, m', bs) && Live(bs') <= Live(bs)
    ensures KeepsLive(m, m', bs')
  {
    forall i | 0 <= i < |bs'| && bs'[i].used
      ensures SamePayload(m, m', bs'[i])
    {
      assert bs'[i] in Live(bs');
      assert bs'[i] in bs;
    }
  }

  lemma KeepsLiveTransitive(m: Mem, m': Mem, m'': Mem, bs: seq<Block>)
    requires KeepsLive(m, m', bs) && KeepsLive(m', m'', bs)
    ensures KeepsLive(m, m'', bs)
  {
  }

  // The list after the pass has visited its node k.
  function AbsorbAt(cur: seq<Block>, k: int): seq<Block>
    requires 0 <= k < |cur|
  {
    if 0 < k && !cur[k - 1].used && !cur[k].used then
      Splice(cur, k - 1, 2, [Block(cur[k - 1].addr, cur[k - 1].size + cur[k].size + HDR, false)])
    else
      cur
  }

  // Where the coalescing pass stands when it reaches node i of bs.
  function PassAt(bs: seq<Block>, i: int): seq<Block>
    requires 0 <= i <= |bs|
  {
    Coalesce(bs[..i]) + bs[i..]
  }

  lemma PassTiles(start: int, bs: seq<Block>, i: int)
    requires 0 <= i <= |bs| && Tiles(start, bs)
    ensures Tiles(start, PassAt(bs, i)) && Live(PassAt(bs, i)) == Live(bs)
    ensures End(start, PassAt(bs, i)) == End(start, bs)
  {
    assert bs == bs[..i] + bs[i..];
    TilesConcat(start, bs[..i], bs[i..]);
    CoalesceCanonical(start, bs[..i]);
    TilesConcat(start, Coalesce(bs[..i]), bs[i..]);
    LiveConcat(bs[..i], bs[i..]);
    LiveConcat(Coalesce(bs[..i]), bs[i..]);
  }

  lemma AbsorbAtConcat(done: seq<Block>, b: Block, rest: seq<Block>)
    ensures AbsorbAt(done + ([b] + rest), |done|) == Absorb(done, b) + rest
  {
    var cur := done + ([b] + rest);
    assert cur[|done|] == b && cur[|done| + 1..] == rest;
    if done != [] {
      assert cur[|done| - 1] == done[|done| - 1] && cur[..|done| - 1] == done[..|done| - 1];
    }
    assert cur == (done + [b]) + rest;
  }

  lemma PassStep(bs: seq<Block>, i: int)
    requires 0 <= i < |bs|
    ensures var k := |Coalesce(bs[..i])|;
            && k < |PassAt(bs, i)| && PassAt(bs, i)[k] == bs[i]
            && NextAddr(PassAt(bs, i), k) == NextAddr(bs, i)
            && PassAt(bs, i + 1) == AbsorbAt(PassAt(bs, i), k)
  {
    assert bs[..i + 1][..i] == bs[..i];
    assert bs[i..] == [bs[i]] + bs[i + 1..];
    AbsorbAtConcat(Coalesce(bs[..i]), bs[i], bs[i + 1..]);
  }

  // ----- accounting -----

  function UsedBytes(bs: seq<Block>): int {
    if bs == [] then 0
    else UsedBytes(bs[..|bs| - 1]) + (if bs[|bs| - 1].used then bs[|bs| - 1].size + HDR else 0)
  }

  // ----- what an allocation does to the live blocks -----

  // memset(p, 0, n)
  function Fill(m: Mem, p: int, n: int): Mem {
    (x: int) => if p <= x < p + n then 0 else m(x)
  }

  // m' differs from m at most in the payload of b.
  ghost predicate SameOutside(m: Mem, m': Mem, b: Block) {
    forall x :: x < b.Payload() || b.Limit() <= x ==> m'(x) == m(x)
  }

  // Storing into the payload of block k leaves every header and every other payload alone.
  lemma StoreInside(start: int, bs: seq<Block>, m: Mem, k: int, m': Mem)
    requires Tiles(start, bs) && Linked(m, bs) && 0 <= k < |bs| && SameOutside(m, m', bs[k])
    ensures Linked(m', bs)
    ensures forall i :: 0 <= i < |bs| && i != k ==> SamePayload(m, m', bs[i])
  {
    forall i | 0 <= i < |bs| ensures Node(m', bs, i) && (i != k ==> SamePayload(m, m', bs[i])) {
      assert Node(m, bs, i);
      if i < k { TilesDisjoint(start, bs, i, k); }
      if k < i { TilesDisjoint(start, bs, k, i); }
    }
  }

  // The block that an allocation of size bytes returns.
  function AllocBlock(start: int, bs: seq<Block>, size: int): Block {
    var k := FirstFit(bs, size);
    if k < |bs| then Carve(bs[k], size)[0] else Block(End(start, bs), size, true)
  }

  lemma CarveLive(start: int, bs: seq<Block>, k: int, size: int)
    requires Tiles(start, bs) && 0 <= k < |bs| && Fits(bs[k], size)
    ensures var seg := Carve(bs[k], size);
            && Live(Splice(bs, k, 1, seg)) == Live(bs) + {seg[0]}
            && seg[0] in Splice(bs, k, 1, seg) && seg[0] !in Live(bs)
  {
    var seg := Carve(bs[k], size);
    assert Splice(bs, k, 1, seg)[k] == seg[0];
    assert bs == Splice(bs, k, 1, [bs[k]]);
    LiveSplice(bs, k, seg);
    LiveSplice(bs, k, [bs[k]]);
    assert Live(seg) == {seg[0]} && Live([bs[k]]) == {};
    forall c | c in Live(bs) ensures c.addr != bs[k].addr {
      var i :| 0 <= i < |bs| && bs[i] == c;
      if i < k { TilesDisjoint(start, bs, i, k); } else if k < i { TilesDisjoint(start, bs, k, i); }
    }
  }

  lemma ExtendLive(start: int, bs: seq<Block>, b: Block)
    requires Tiles(start, bs) && b.addr == End(start, bs) && b.used && b.size >= 0 && WholeLines(b)
    ensures Tiles(start, bs + [b]) && Live(bs + [b]) == Live(bs) + {b} && b !in Live(bs) && b in bs + [b]
  {
    LiveConcat(bs, [b]);
    assert Live([b]) == {b} by { assert [b][0] == b; }
    assert WholeLines([b][0]);
    TilesConcat(start, bs, [b]);
    forall c | c in Live(bs) ensures c != b {
      var i :| 0 <= i < |bs| && bs[i] == c;
      if i < |bs| - 1 { TilesDisjoint(start, bs, i, |bs| - 1); }
    }
  }

  // malloc adds exactly one live block, new, aligned and large enough; the arena
  // grows only when nothing fits.
  lemma AllocPlaces(start: int, bs: seq<Block>, size: int)
    requires Tiles(start, bs) && 0 <= size && size % HDR == 0
    ensures var b, bs' := AllocBlock(start, bs, size), AllocBlocks(start, bs, size);
            && Tiles(start, bs') && b in bs' && b.used
            && b !in Live(bs) && Live(bs') == Live(bs) + {b}
            && b.Payload() == AllocAddr(start, bs, size) && size <= b.size < size + SPLIT_MIN
            && End(start, bs') == (if FirstFit(bs, size) < |bs| then End(start, bs) else End(start, bs) + HDR + size)
  {
    var k := FirstFit(bs, size);
    if k < |bs| {
      assert AllocBlocks(start, bs, size) == Splice(bs, k, 1, Carve(bs[k], size));
      CarveTiles(start, bs, k, size);
      CarveLive(start, bs, k, size);
    } else {
      ExtendLive(start, bs, AllocBlock(start, bs, size));
    }
  }

  lemma LiveSplice(bs: seq<Block>, k: int, seg: seq<Block>)
    requires 0 <= k < |bs|
    ensures Live(Splice(bs, k, 1, seg)) == Live(bs[..k]) + Live(seg) + Live(bs[k + 1..])
  {
  }

  // ----- one step of a run -----

  datatype State = State(blocks: seq<Block>, mem: Mem)

  // What one call, or one store by a caller into its own block, may do.
  datatype Op =
    | Alloc(size: int)                 // malloc or calloc, size already rounded up
    | Release(k: int)                  // free of the k-th block
    | Ignore                           // free of a pointer below the heap
    | Poke(k: int, x: int, w: int)     // the owner of the k-th block stores w at x

  ghost predicate Step(start: int, s: State, op: Op, s': State) {
    match op
    case Alloc(size) =>
      && 0 <= size && size % HDR == 0
      && s'.blocks == AllocBlocks(start, s.blocks, size)
      && KeepsLive(s.mem, s'.mem, s.blocks) && Linked(s'.mem, s'.blocks)
    case Release(k) =>
      && 0 <= k < |s.blocks| && s.blocks[k].used
      && s'.blocks == FreeBlocks(s.blocks, k)
      && KeepsLive(s.mem, s'.mem, s'.blocks) && Linked(s'.mem, s'.blocks)
    case Ignore => s' == s
    case Poke(k, x, w) =>
      && 0 <= k < |s.blocks| && s.blocks[k].used
      && s.blocks[k].Payload() <= x < s.blocks[k].Limit()
      && s'.blocks == s.blocks
      && s'.mem == Store(s.mem, x, w)
  }

  // Clearing the block just allocated is still only an allocation.
  lemma ZeroedStep(start: int, s: State, t: State, n: int)
    requires Tiles(start, s.blocks) && Step(start, s, Alloc(n), t)
    ensures var m' := Fill(t.mem, AllocAddr(start, s.blocks, n), n);
            Step(start, s, Alloc(n), State(t.blocks, m'))
  {
    AllocPlaces(start, s.blocks, n);
    var k :| 0 <= k < |t.blocks| && t.blocks[k] == AllocBlock(start, s.blocks, n);
    var m' := Fill(t.mem, t.blocks[k].Payload(), n);
    StoreInside(start, t.blocks, t.mem, k, m');
    forall i | 0 <= i < |s.blocks| && s.blocks[i].used
      ensures SamePayload(s.mem, m', s.blocks[i])
    {
      assert s.blocks[i] in Live(t.blocks);
      var j :| 0 <= j < |t.blocks| && t.blocks[j] == s.blocks[i];
      assert SamePayload(t.mem, m', t.blocks[j]);
    }
  }

  class Heap {
    var start: int
    var first: int
    var mem: Mem
    ghost var blocks: seq<Block>

    ghost predicate Valid()
      reads this
    {
      && 0 < start && start % HDR == 0
      && Tiles(start, blocks) && End(start, blocks) <= TOP
      && Linked(mem, blocks)
      && first == (if blocks == [] then NULL else start)
    }

    ghost function Snapshot(): State
      reads this
    {
      State(blocks, mem)
    }

    // _heap_create
    constructor (base: int, ram: Mem)
      requires 0 < base <= TOP && base % HDR == 0
      ensures Valid() && start == base && blocks == [] && mem == ram
    {
      start, first, mem, blocks := base, NULL, ram, [];
    }

    // The header of the free remainder, at newNode, between node and the node after it.
    method FreeHeader(node: int, newNode: int, newSize: int, ghost hi: int)
      requires node + HDR <= newNode && newNode + HDR <= hi
      requires mem(node + 12) == NULL || mem(node + 12) == hi
      modifies this`mem
      ensures SameAround(old(mem), mem, newNode, hi)
      ensures mem(newNode) == 0 && mem(newNode + 4) == newSize - HDR
      ensures mem(newNode + 8) == node && mem(newNode + 12) == old(mem(node + 12))
      ensures old(mem(node + 12)) != NULL ==> mem(hi + 8) == newNode
    {
      mem := Store(mem, newNode + 4, newSize - HDR);
      mem := Store(mem, newNode, 0);
      mem := Store(mem, newNode + 12, mem(node + 12));
      if mem(newNode + 12) != NULL {
        mem := Store(mem, mem(newNode + 12) + 8, newNode);
      }
      mem := Store(mem, newNode + 8, node);
    }

    // The split of _heap_alloc: node keeps `size` bytes and the free remainder
    // gets a header at newNode.  hi is where the block being split ends.
    method Split(node: int, newNode: int, size: int, newSize: int, ghost hi: int)
      requires node + HDR <= newNode && newNode + HDR <= hi
      requires mem(node + 12) == NULL || mem(node + 12) == hi
      modifies this`mem
      ensures SameAround(old(mem), mem, node, hi)
      ensures mem(node) == 1 && mem(node + 4) == size && mem(node + 8) == old(mem(node + 8)) && mem(node + 12) == newNode
      ensures mem(newNode) == 0 && mem(newNode + 4) == newSize - HDR
      ensures mem(newNode + 8) == node && mem(newNode + 12) == old(mem(node + 12))
      ensures old(mem(node + 12)) != NULL ==> mem(hi + 8) == newNode
    {
      FreeHeader(node, newNode, newSize, hi);
      mem := Store(mem, node + 12, newNode);
      mem := Store(mem, node + 4, size);
      mem := Store(mem, node, 1);
    }

    // The very first node, at the start of the heap.
    method FirstNode(node: int, size: int)
      modifies this`mem
      ensures forall x :: !(node <= x < node + HDR) ==> mem(x) == old(mem)(x)
      ensures mem(node) == 1 && mem(node + 4) == size && mem(node + 8) == NULL && mem(node + 12) == NULL
    {
      mem := Store(mem, node, 1);
      mem := Store(mem, node + 4, size);
      mem := Store(mem, node + 8, NULL);
      mem := Store(mem, node + 12, NULL);
    }

    // The new last node of _heap_alloc, after node.
    method Append(node: int, newNode: int, size: int)
      requires node + HDR <= newNode
      modifies this`mem
      ensures AppendWords(old(mem), mem, node, newNode, size)
    {
      mem := Store(mem, newNode, 1);
      mem := Store(mem, newNode + 4, size);
      mem := Store(mem, newNode + 8, node);
      mem := Store(mem, newNode + 12, NULL);
      mem := Store(mem, node + 12, newNode);
    }

    // The search loop of _heap_alloc: the first free node that fits, else the last node.
    method Search(size: int) returns (found: bool, node: int, ghost k: int)
      requires Valid() && first != NULL
      ensures found <==> FirstFit(blocks, size) < |blocks|
      ensures k == (if found then FirstFit(blocks, size) else |blocks| - 1) && 0 <= k < |blocks|
      ensures node == blocks[if found then FirstFit(blocks, size) else |blocks| - 1].addr
    {
      node, k := first, 0;
      while true
        invariant 0 <= k < |blocks| && node == blocks[k].addr
        invariant forall i :: 0 <= i < k ==> !Fits(blocks[i], size)
        decreases |blocks| - k
      {
        assert Node(mem, blocks, k);
        if mem(node) == 0 && size <= mem(node + 4) {
          return true, node, k;
        }
        if k + 1 < |blocks| { TilesAligned(start, blocks, k + 1); }
        if mem(node + 12) != NULL {
          node, k := mem(node + 12), k + 1;
        } else {
          return false, node, k;
        }
      }
    }

    // Mark a whole node as used.
    method Claim(node: int, size: int)
      modifies this`mem
      ensures forall x :: x != node && x != node + 4 ==> mem(x) == old(mem)(x)
      ensures mem(node) == 1 && mem(node + 4) == size
    {
      mem := Store(mem, node + 4, size);
      mem := Store(mem, node, 1);
    }

    // Take the front of a free node that is large enough to split.
    method TakeFront(node: int, size: int, newSize: int, ghost k: int)
      requires Valid() && 0 <= k < |blocks| && node == blocks[k].addr && !blocks[k].used
      requires 0 <= size && newSize == blocks[k].size - size && newSize >= SPLIT_MIN
      modifies this`mem
      ensures Linked(mem, Splice(blocks, k, 1, Carve(blocks[k], size)))
      ensures KeepsLive(old(mem), mem, blocks)
    {
      hide Tiles, Linked, Splice, Carve, KeepsLive;
      Around(start, blocks, mem, k);
      Split(node, node + HDR + size, size, newSize, blocks[k].Limit());
      SplitLinked(start, blocks, old(mem), k, size, mem);
    }

    // Take the whole of a free node.
    method TakeWhole(node: int, size: int, ghost k: int)
      requires Valid() && 0 <= k < |blocks| && node == blocks[k].addr && size == blocks[k].size
      modifies this`mem
      ensures Linked(mem, Splice(blocks, k, 1, [Block(node, size, true)]))
      ensures KeepsLive(old(mem), mem, blocks)
    {
      Claim(node, size);
      OverwriteLinked(start, blocks, old(mem), k, Block(node, size, true), mem);
    }

    // Take a free node that fits, splitting it when enough is left over.
    method Take(node: int, size: int, ghost k: int)
      requires Valid() && 0 <= k < |blocks| && node == blocks[k].addr
      requires 0 <= size && Fits(blocks[k], size)
      modifies this`mem
      ensures Linked(mem, Splice(blocks, k, 1, Carve(blocks[k], size)))
      ensures KeepsLive(old(mem), mem, blocks)
    {
      assert Node(mem, blocks, k);
      var newSize := mem(node + 4) - size;
      if newSize >= SPLIT_MIN {
        TakeFront(node, size, newSize, k);
      } else {
        TakeWhole(node, size + newSize, k);
      }
    }

    // Serve the request from the free node k.
    method Reuse(node: int, size: int, ghost k: int) returns (p: int)
      requires Valid() && 0 <= k < |blocks| && node == blocks[k].addr
      requires 0 <= size && size % HDR == 0 && Fits(blocks[k], size)
      modifies this
      ensures Valid() && start == old(start)
      ensures blocks == Splice(old(blocks), k, 1, Carve(old(blocks)[k], size))
      ensures p == old(blocks)[k].Payload() && KeepsLive(old(mem), mem, old(blocks))
    {
      Take(node, size, k);
      CarveTiles(start, blocks, k, size);
      blocks := Splice(blocks, k, 1, Carve(blocks[k], size));
      return node + HDR;
    }

    // No free node fits: a new node after the last one.
    method Extend(node: int, size: int) returns (p: int)
      requires Valid() && blocks != [] && node == blocks[|blocks| - 1].addr
      requires 0 <= size && size % HDR == 0 && End(start, blocks) + HDR + size <= TOP
      modifies this
      ensures Valid() && start == old(start)
      ensures blocks == old(blocks) + [Block(End(start, old(blocks)), size, true)]
      ensures p == End(start, old(blocks)) + HDR
      ensures KeepsLive(old(mem), mem, old(blocks))
    {
      assert Node(mem, blocks, |blocks| - 1);
      var newNode := node + HDR + mem(node + 4);
      Append(node, newNode, size);
      AppendLinked(start, blocks, old(mem), size, mem);
      TilesConcat(start, blocks, [Block(newNode, size, true)]);
      blocks := blocks + [Block(newNode, size, true)];
      return newNode + HDR;
    }

    // _heap_alloc after the request has been rounded up.
    method Place(size: int) returns (p: int)
      requires Valid()
      requires 0 <= size && size % HDR == 0
      requires End(start, AllocBlocks(start, blocks, size)) <= TOP
      modifies this
      ensures Valid() && start == old(start)
      ensures blocks == AllocBlocks(start, old(blocks), size)
      ensures p == AllocAddr(start, old(blocks), size)
      ensures KeepsLive(old(mem), mem, old(blocks))
    {
      if first == NULL {
        FirstNode(start, size);
        first := start;
        blocks := [Block(start, size, true)];
        assert Node(mem, blocks, 0);
        return start + HDR;
      }
      ghost var k;
      var found, node;
      found, node, k := Search(size);
      if found {
        p := Reuse(node, size, k);
        return;
      }
      p := Extend(node, size);
    }

    // malloc
    method Malloc(request: int) returns (p: int)
      requires Valid() && 0 <= request < TOP
      requires End(start, AllocBlocks(start, blocks, Align(request))) <= TOP
      modifies this
      ensures Valid() && start == old(start)
      ensures Step(start, old(Snapshot()), Alloc(Align(request)), Snapshot())
      ensures p == AllocAddr(start, old(blocks), Align(request))
    {
      hide Align, AllocBlocks, AllocAddr;
      AlignWhole(request);
      p := Place(Align(request));
    }

    // The merge of _heap_free: the free node's space joins its free predecessor.
    method Merge(node: int, ghost p: int, ghost hi: int)
      requires p == mem(node + 8) && p + HDR <= node && node + HDR <= hi
      requires mem(node + 12) == NULL || mem(node + 12) == hi
      modifies this`mem
      ensures SameAround(old(mem), mem, p, hi)
      ensures forall x :: node <= x < hi ==> mem(x) == old(mem)(x)
      ensures mem(p) == old(mem(p)) && mem(p + 4) == old(mem(p + 4) + mem(node + 4)) + HDR
      ensures mem(p + 8) == old(mem(p + 8)) && mem(p + 12) == old(mem(node + 12))
      ensures old(mem(node + 12)) != NULL ==> mem(hi + 8) == p
    {
      var prev := mem(node + 8);
      mem := Store(mem, prev + 4, mem(prev + 4) + (mem(node + 4) + HDR));
      mem := Store(mem, prev + 12, mem(node + 12));
      if mem(node + 12) != NULL {
        mem := Store(mem, mem(node + 12) + 8, mem(node + 8));
      }
    }

    // One turn of the coalescing loop of _heap_free, at node k of the current list.
    method Visit(node: int, ghost cur: seq<Block>, ghost k: int) returns (next: int)
      requires 0 < start && start % HDR == 0 && Tiles(start, cur) && Linked(mem, cur)
      requires 0 <= k < |cur| && node == cur[k].addr
      modifies this`mem
      ensures Linked(mem, AbsorbAt(cur, k)) && KeepsLive(old(mem), mem, cur)
      ensures next == NextAddr(cur, k)
    {
      hide Tiles, Linked, Splice;
      ghost var m := mem;
      Around(start, cur, mem, k);
      if mem(node) == 0 && mem(node + 8) != NULL && mem(mem(node + 8)) == 0 {
        Merge(node, cur[k - 1].addr, cur[k].Limit());
        MergeLinked(start, cur, m, k, mem);
      }
      next := mem(node + 12);
    }

    // _heap_free
    method FreeNode(addr: int, ghost k: int)
      requires Valid() && 0 <= k < |blocks| && blocks[k].used && addr == blocks[k].Payload()
      modifies this
      ensures Valid() && start == old(start)
      ensures blocks == FreeBlocks(old(blocks), k)
      ensures KeepsLive(old(mem), mem, blocks)
    {
      var node := addr - HDR;
      ghost var bs := Splice(blocks, k, 1, [Freed(blocks[k])]);
      assert Node(mem, blocks, k);
      mem := Store(mem, node, 0);
      OverwriteLinked(start, blocks, old(mem), k, Freed(blocks[k]), mem);
      FreedTiles(start, blocks, k);
      KeepsLiveSubset(old(mem), mem, blocks, bs);
      ghost var m := mem;
      CoalescePass(bs);
      CoalesceCanonical(start, bs);
      KeepsLiveTransitive(old(mem), m, mem, bs);
      KeepsLiveSubset(old(mem), mem, bs, Coalesce(bs));
      blocks := Coalesce(bs);
    }

    // The coalescing pass of _heap_free over a list bs in which anything may be free.
    method CoalescePass(ghost bs: seq<Block>)
      requires 0 < start && start % HDR == 0 && Tiles(start, bs) && Linked(mem, bs)
      requires first == if bs == [] then NULL else start
      modifies this`mem
      ensures Linked(mem, Coalesce(bs)) && KeepsLive(old(mem), mem, bs)
    {
      var node := first;
      ghost var i := 0;
      assert PassAt(bs, 0) == bs;
      while node != NULL
        invariant 0 <= i <= |bs| && node == (if i < |bs| then bs[i].addr else NULL)
        invariant Linked(mem, PassAt(bs, i)) && KeepsLive(old(mem), mem, bs)
        decreases |bs| - i
      {
        ghost var m, cur := mem, PassAt(bs, i);
        PassTiles(start, bs, i);
        PassStep(bs, i);
        node := Visit(node, cur, |Coalesce(bs[..i])|);
        KeepsLiveSubset(m, mem, cur, bs);
        KeepsLiveTransitive(old(mem), m, mem, bs);
        i := i + 1;
      }
      if i < |bs| { TilesAligned(start, bs, i); }
      assert bs[..i] == bs && PassAt(bs, i) == Coalesce(bs);
    }

    // free
    method Free(buf: int, ghost k: int)
      requires Valid()
      requires buf >= start ==> 0 <= k < |blocks| && blocks[k].used && buf == blocks[k].Payload()
      modifies this
      ensures Valid() && start == old(start)
      ensures Step(start, old(Snapshot()), if buf >= start then Release(k) else Ignore, Snapshot())
    {
      if buf >= start {
        FreeNode(buf, k);
      }
    }

    // calloc once the byte count n has been rounded up.
    method PlaceZeroed(n: int) returns (p: int)
      requires Valid() && 0 <= n && n % HDR == 0
      requires End(start, AllocBlocks(start, blocks, n)) <= TOP
      modifies this
      ensures Valid() && start == old(start)
      ensures Step(start, old(Snapshot()), Alloc(n), Snapshot())
      ensures p == AllocAddr(start, old(blocks), n)
      ensures forall x :: p <= x < p + n ==> mem(x) == 0
    {
      p := Place(n);
      ghost var m := mem;
      mem := Fill(mem, p, n);
      ZeroedStep(start, old(Snapshot()), State(blocks, m), n);
    }

    // calloc
    method Calloc(num: int, size: int) returns (p: int)
      requires Valid() && 0 <= num < TOP && 0 <= size < TOP
      requires End(start, AllocBlocks(start, blocks, Align(num * size % TOP))) <= TOP
      modifies this
      ensures Valid() && start == old(start)
      ensures Step(start, old(Snapshot()), Alloc(Align(num * size % TOP)), Snapshot())
      ensures p == AllocAddr(start, old(blocks), Align(num * size % TOP))
      ensures forall x :: p <= x < p + Align(num * size % TOP) ==> mem(x) == 0
    {
      hide Align, AllocBlocks, AllocAddr, Step;
      AlignWhole(num * size % TOP);
      p := PlaceZeroed(Align(num * size % TOP));
    }

    // A caller stores into the block it was given.
    method Poke(x: int, w: int, ghost k: int)
      requires Valid() && 0 <= k < |blocks| && blocks[k].used && blocks[k].Payload() <= x < blocks[k].Limit()
      modifies this
      ensures Valid() && start == old(start)
      ensures Step(start, old(Snapshot()), Op.Poke(k, x, w), Snapshot())
    {
      mem := Store(mem, x, w);
      StoreInside(start, blocks, old(mem), k, mem);
    }

    // heap_monitor
    method Monitor() returns (total: int, used: int)
      requires Valid() && first != NULL
      ensures total == End(start, blocks) - start
      ensures used == UsedBytes(blocks)
    {
      total, used := 0, 0;
      var node := first;
      ghost var k := 0;
      assert blocks[..0] == [];
      while true
        invariant 0 <= k < |blocks| && node == blocks[k].addr
        invariant used == UsedBytes(blocks[..k]) && total + used == node - start
        decreases |blocks| - k
      {
        assert Node(mem, blocks, k);
        assert blocks[..k + 1][..k] == blocks[..k];
        if mem(node) != 0 {
          used := used + mem(node + 4) + HDR;
        } else {
          total := total + mem(node + 4) + HDR;
        }
        if k + 1 < |blocks| { TilesAligned(start, blocks, k + 1); }
        if mem(node + 12) != NULL {
          node, k := mem(node + 12), k + 1;
        } else {
          assert blocks[..k + 1] == blocks;
          break;
        }
      }
      total := total + used;
    }
  }
}
