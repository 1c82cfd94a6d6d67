/**
  What the heap promises its callers, over single operations and over every
  sequence of operations.
*/
module HeapTheorems {
  import opened Heap

  // ----- request sizes -----

  // A block covers the request exactly when rounding up does not wrap the u32.
  lemma AlignCovers(size: int)
    requires 0 <= size < TOP
    ensures Align(size) % HDR == 0 && 0 <= Align(size) < TOP
    ensures size <= Align(size) <==> size <= TOP - HDR
    ensures size <= TOP - HDR ==> Align(size) < size + HDR
  {
  }

  // The same for calloc, whose product wraps first.
  lemma CallocCovers(num: int, size: int)
    requires 0 <= num < TOP && 0 <= size < TOP
    ensures num * size <= Align(num * size % TOP) <==> num * size <= TOP - HDR
  {
    var n := num * size;
    assert 0 <= n by { if num > 0 && size > 0 { assert n == num * size; } }
    if n < TOP {
      assert n % TOP == n;
    }
    AlignCovers(n % TOP);
  }

  // ----- what an allocation does to the list, in bytes -----

  // The lowest free block that is large enough serves the request.  It is split if and only if
  // at least 128 bytes would be left, 32 of them for the new header.
  lemma AllocReuses(start: int, bs: seq<Block>, size: int, k: nat)
    requires k < |bs| && !bs[k].used && size <= bs[k].size
    requires forall i :: 0 <= i < k ==> bs[i].used || bs[i].size < size
    ensures var b := bs[k];
            && AllocAddr(start, bs, size) == b.addr + 32
            && AllocBlocks(start, bs, size) == bs[..k] +
               (if b.size - size >= 128 then [Block(b.addr, size, true), Block(b.addr + 32 + size, b.size - size - 32, false)]
                else [Block(b.addr, b.size, true)]) + bs[k + 1..]
  {
    FirstFitIs(bs, size, k);
  }

  lemma FirstFitIs(bs: seq<Block>, size: int, k: nat)
    requires k <= |bs| && (k < |bs| ==> !bs[k].used && size <= bs[k].size)
    requires forall i :: 0 <= i < k ==> bs[i].used || bs[i].size < size
    ensures FirstFit(bs, size) == k
  {
    hide FirstFit;
    var f := FirstFit(bs, size);
    if k < |bs| { assert Fits(bs[k], size); }
    if f < |bs| { assert Fits(bs[f], size); }
  }

  // If there is none the arena grows by the size and a header.
  lemma AllocGrows(start: int, bs: seq<Block>, size: int)
    requires forall i :: 0 <= i < |bs| ==> bs[i].used || bs[i].size < size
    ensures AllocAddr(start, bs, size) == End(start, bs) + 32
    ensures AllocBlocks(start, bs, size) == bs + [Block(End(start, bs), size, true)]
  {
    FirstFitIs(bs, size, |bs|);
  }

  // ----- the bytes in use, as heap_monitor counts them -----

  lemma {:induction false} UsedConcat(a: seq<Block>, b: seq<Block>)
    ensures UsedBytes(a + b) == UsedBytes(a) + UsedBytes(b)
    decreases |b|
  {
    if b == [] {
      assert a + b == a;
    } else {
      var l := |b| - 1;
      assert (a + b)[..|a| + l] == a + b[..l];
      UsedConcat(a, b[..l]);
    }
  }

  lemma UsedOne(b: Block)
    ensures UsedBytes([b]) == if b.used then b.size + 32 else 0
  {
    assert [b][..0] == [];
  }

  lemma AbsorbUsed(done: seq<Block>, b: Block)
    ensures UsedBytes(Absorb(done, b)) == UsedBytes(done + [b])
  {
    UsedConcat(done, [b]);
    UsedOne(b);
    if Absorb(done, b) != done + [b] {
      var l := |done| - 1;
      var p := Block(done[l].addr, done[l].size + b.size + HDR, false);
      assert done == done[..l] + [done[l]];
      UsedConcat(done[..l], [done[l]]);
      UsedOne(done[l]);
      UsedConcat(done[..l], [p]);
      UsedOne(p);
    }
  }

  lemma {:induction false} CoalesceUsed(bs: seq<Block>)
    ensures UsedBytes(Coalesce(bs)) == UsedBytes(bs)
    decreases |bs|
  {
    if bs != [] {
      var l := |bs| - 1;
      CoalesceUsed(bs[..l]);
      AbsorbUsed(Coalesce(bs[..l]), bs[l]);
      UsedConcat(Coalesce(bs[..l]), [bs[l]]);
      UsedConcat(bs[..l], [bs[l]]);
      assert bs == bs[..l] + [bs[l]];
    }
  }

  lemma UsedReplaced(bs: seq<Block>, k: nat, seg: seq<Block>)
    requires k < |bs|
    ensures UsedBytes(bs[..k] + seg + bs[k + 1..]) == UsedBytes(bs) - UsedBytes([bs[k]]) + UsedBytes(seg)
  {
    assert bs == bs[..k] + [bs[k]] + bs[k + 1..];
    UsedConcat(bs[..k] + [bs[k]], bs[k + 1..]);
    UsedConcat(bs[..k], [bs[k]]);
    UsedConcat(bs[..k] + seg, bs[k + 1..]);
    UsedConcat(bs[..k], seg);
  }

  // An allocation adds the new block with its header,
  lemma AllocUsed(start: int, bs: seq<Block>, size: int)
    ensures UsedBytes(AllocBlocks(start, bs, size)) == UsedBytes(bs) + AllocBlock(start, bs, size).size + 32
  {
    hide UsedBytes;
    var k := FirstFit(bs, size);
    if k < |bs| {
      var seg := Carve(bs[k], size);
      UsedReplaced(bs, k, seg);
      UsedOne(bs[k]);
      UsedOne(seg[0]);
      if |seg| == 2 {
        UsedOne(seg[1]);
        UsedConcat([seg[0]], [seg[1]]);
        assert seg == [seg[0]] + [seg[1]];
      } else {
        assert seg == [seg[0]];
      }
    } else {
      var b := Block(End(start, bs), size, true);
      UsedConcat(bs, [b]);
      UsedOne(b);
    }
  }

  // and freeing a block takes it away again.
  lemma FreeUsed(bs: seq<Block>, k: nat)
    requires k < |bs| && bs[k].used
    ensures UsedBytes(FreeBlocks(bs, k)) == UsedBytes(bs) - (bs[k].size + 32)
  {
    hide UsedBytes;
    CoalesceUsed(bs[k := Freed(bs[k])]);
    assert bs[k := Freed(bs[k])] == bs[..k] + [Freed(bs[k])] + bs[k + 1..];
    UsedReplaced(bs, k, [Freed(bs[k])]);
    UsedOne(bs[k]);
    UsedOne(Freed(bs[k]));
  }

  // ----- the live blocks -----

  lemma LiveDisjoint(start: int, bs: seq<Block>, b: Block, c: Block)
    requires Tiles(start, bs) && start % HDR == 0
    requires b in Live(bs) && c in Live(bs) && b != c
    ensures b.Limit() <= c.addr || c.Limit() <= b.addr
    ensures b.Payload() % HDR == 0 && start < b.Payload() && b.Limit() <= End(start, bs)
  {
    var i :| 0 <= i < |bs| && bs[i] == b;
    var j :| 0 <= j < |bs| && bs[j] == c;
    TilesAligned(start, bs, i);
    if i < j { TilesDisjoint(start, bs, i, j); } else { TilesDisjoint(start, bs, j, i); }
  }

  lemma FreeRemoves(start: int, bs: seq<Block>, k: int)
    requires Tiles(start, bs) && 0 <= k < |bs| && bs[k].used
    ensures Tiles(start, FreeBlocks(bs, k)) && NoAdjacentFree(FreeBlocks(bs, k))
    ensures End(start, FreeBlocks(bs, k)) == End(start, bs)
    ensures Live(FreeBlocks(bs, k)) == Live(bs) - {bs[k]}
  {
    FreedTiles(start, bs, k);
    CoalesceCanonical(start, bs[k := Freed(bs[k])]);
  }

  lemma AllocCanonical(start: int, bs: seq<Block>, size: int)
    requires NoAdjacentFree(bs)
    ensures NoAdjacentFree(AllocBlocks(start, bs, size))
  {
    var k := FirstFit(bs, size);
    var bs' := AllocBlocks(start, bs, size);
    forall i, j | 0 <= i && j == i + 1 && j < |bs'| ensures bs'[i].used || bs'[j].used {
      if k < |bs| {
        var d := |bs'| - |bs|;
        assert bs[k + 1..] == bs'[k + 1 + d..];
        if k + 1 + d <= i { assert bs[i - d].used || bs[j - d].used; }
        if i == k + d && d == 1 { assert bs[k].used || bs[k + 1].used; }
      }
    }
  }

  // ----- a canonical heap is determined by its live blocks -----

  lemma SameHead(start: int, bs: seq<Block>, cs: seq<Block>, n: int)
    requires Tiles(start, bs) && Tiles(start, cs) && Live(bs) <= Live(cs)
    requires 0 <= n < |bs| && n < |cs| && bs[n].addr == cs[n].addr && bs[n].used
    ensures bs[n] == cs[n]
  {
    assert bs[n] in Live(bs);
    var j :| 0 <= j < |cs| && cs[j] == bs[n];
    if j < n { TilesDisjoint(start, cs, j, n); }
    if n < j { TilesDisjoint(start, cs, n, j); }
  }

  // A free block of bs cannot end before the free block of cs at the same address.
  lemma NoShorterGap(start: int, bs: seq<Block>, cs: seq<Block>, n: int)
    requires Tiles(start, bs) && Tiles(start, cs) && Live(bs) <= Live(cs)
    requires NoAdjacentFree(bs) && End(start, bs) == End(start, cs)
    requires 0 <= n < |bs| && n < |cs| && bs[n].addr == cs[n].addr && !bs[n].used
    ensures cs[n].Limit() <= bs[n].Limit()
  {
    if n == |bs| - 1 {
      if n < |cs| - 1 { TilesDisjoint(start, cs, n, |cs| - 1); }
    } else if bs[n].Limit() < cs[n].Limit() {
      var u := bs[n + 1];
      assert u.used && u in Live(bs);
      var j :| 0 <= j < |cs| && cs[j] == u;
      if j < n { TilesDisjoint(start, cs, j, n); }
      if n < j { TilesDisjoint(start, cs, n, j); }
    }
  }

  lemma {:induction false} CanonicalPrefix(start: int, bs: seq<Block>, cs: seq<Block>, n: int)
    requires Tiles(start, bs) && Tiles(start, cs) && NoAdjacentFree(bs) && NoAdjacentFree(cs)
    requires End(start, bs) == End(start, cs) && Live(bs) == Live(cs)
    requires 0 <= n <= |bs| && n <= |cs|
    ensures bs[..n] == cs[..n]
    decreases n
  {
    if n > 0 {
      CanonicalPrefix(start, bs, cs, n - 1);
      assert bs[..n] == bs[..n - 1] + [bs[n - 1]] && cs[..n] == cs[..n - 1] + [cs[n - 1]];
      if n > 1 {
        assert bs[n - 2] == bs[..n - 1][n - 2] == cs[n - 2];
      }
      assert bs[n - 1].addr == cs[n - 1].addr;
      if bs[n - 1].used {
        SameHead(start, bs, cs, n - 1);
      } else if cs[n - 1].used {
        SameHead(start, cs, bs, n - 1);
      } else {
        NoShorterGap(start, bs, cs, n - 1);
        NoShorterGap(start, cs, bs, n - 1);
      }
    }
  }

  lemma CanonicalUnique(start: int, bs: seq<Block>, cs: seq<Block>)
    requires Tiles(start, bs) && Tiles(start, cs) && NoAdjacentFree(bs) && NoAdjacentFree(cs)
    requires End(start, bs) == End(start, cs) && Live(bs) == Live(cs)
    ensures bs == cs
  {
    var n := if |bs| < |cs| then |bs| else |cs|;
    CanonicalPrefix(start, bs, cs, n);
    if n == 0 {
      if 1 < |bs| { TilesDisjoint(start, bs, 0, |bs| - 1); }
      if 1 < |cs| { TilesDisjoint(start, cs, 0, |cs| - 1); }
    } else {
      assert bs[n - 1] == bs[..n][n - 1] == cs[n - 1];
      if n < |bs| { TilesDisjoint(start, bs, n - 1, |bs| - 1); }
      if n < |cs| { TilesDisjoint(start, cs, n - 1, |cs| - 1); }
    }
  }

  // free undoes malloc: the block list is restored to the last byte, unless malloc
  // had to grow the arena.
  lemma FreeUndoesMalloc(start: int, bs: seq<Block>, size: int, k: int)
    requires Tiles(start, bs) && NoAdjacentFree(bs) && 0 <= size && size % HDR == 0
    requires var bs' := AllocBlocks(start, bs, size);
             0 <= k < |bs'| && bs'[k] == AllocBlock(start, bs, size)
    ensures FreeBlocks(AllocBlocks(start, bs, size), k) == bs <==> FirstFit(bs, size) < |bs|
  {
    var bs' := AllocBlocks(start, bs, size);
    AllocPlaces(start, bs, size);
    FreeRemoves(start, bs', k);
    if FirstFit(bs, size) < |bs| {
      CanonicalUnique(start, FreeBlocks(bs', k), bs);
    }
  }

  // The order in which two blocks are freed does not matter.
  lemma FreeCommutes(start: int, bs: seq<Block>, i: int, j: int, i': int, j': int)
    requires Tiles(start, bs) && 0 <= i < |bs| && 0 <= j < |bs| && i != j && bs[i].used && bs[j].used
    requires 0 <= j' < |FreeBlocks(bs, i)| && FreeBlocks(bs, i)[j'] == bs[j]
    requires 0 <= i' < |FreeBlocks(bs, j)| && FreeBlocks(bs, j)[i'] == bs[i]
    ensures FreeBlocks(FreeBlocks(bs, i), j') == FreeBlocks(FreeBlocks(bs, j), i')
  {
    FreeRemoves(start, bs, i);
    FreeRemoves(start, bs, j);
    FreeRemoves(start, FreeBlocks(bs, i), j');
    FreeRemoves(start, FreeBlocks(bs, j), i');
    CanonicalUnique(start, FreeBlocks(FreeBlocks(bs, i), j'), FreeBlocks(FreeBlocks(bs, j), i'));
  }

  // The in-band links: prev of the next node is the node itself, and next of the previous one.
  lemma LinksInverse(start: int, m: Mem, bs: seq<Block>, k: int)
    requires 0 < start && start % HDR == 0 && Tiles(start, bs) && Linked(m, bs) && 0 <= k < |bs|
    ensures var a := bs[k].addr;
            && (m(a + 12) == NULL <==> k == |bs| - 1) && (m(a + 12) != NULL ==> m(m(a + 12) + 8) == a)
            && (m(a + 8) == NULL <==> k == 0) && (m(a + 8) != NULL ==> m(m(a + 8) + 12) == a)
  {
    assert Node(m, bs, k);
    if k > 0 {
      assert Node(m, bs, k - 1);
      TilesAligned(start, bs, k - 1);
    }
    if k + 1 < |bs| {
      assert Node(m, bs, k + 1);
      TilesAligned(start, bs, k + 1);
    }
  }

  // ----- whole runs -----

  ghost predicate Run(start: int, states: seq<State>, ops: seq<Op>) {
    && |states| == |ops| + 1
    && forall i :: 0 <= i < |ops| ==> Step(start, states[i], ops[i], states[i + 1])
  }

  ghost predicate Good(start: int, s: State) {
    Tiles(start, s.blocks) && NoAdjacentFree(s.blocks) && Linked(s.mem, s.blocks)
  }

  lemma StepGood(start: int, s: State, op: Op, s': State)
    requires Good(start, s) && Step(start, s, op, s')
    ensures Good(start, s') && End(start, s.blocks) <= End(start, s'.blocks)
  {
    match op
    case Alloc(size) =>
      AllocPlaces(start, s.blocks, size);
      AllocCanonical(start, s.blocks, size);
    case Release(k) => FreeRemoves(start, s.blocks, k);
    case Ignore =>
    case Poke(k, x, w) => StoreInside(start, s.blocks, s.mem, k, s'.mem);
  }

  // From an empty heap every state of every run tiles its arena, no two neighbouring
  // blocks are free, and the headers in memory link the blocks.
  lemma {:induction false} RunGood(start: int, states: seq<State>, ops: seq<Op>, n: int)
    requires Run(start, states, ops) && states[0].blocks == []
    requires 0 <= n < |states|
    ensures Good(start, states[n])
    decreases n
  {
    if n > 0 {
      RunGood(start, states, ops, n - 1);
      StepGood(start, states[n - 1], ops[n - 1], states[n]);
    }
  }

  // op neither frees b nor stores into it.
  ghost predicate LeavesAlone(s: State, op: Op, b: Block) {
    match op
    case Release(k) => 0 <= k < |s.blocks| ==> s.blocks[k] != b
    case Poke(k, _, _) => 0 <= k < |s.blocks| ==> s.blocks[k] != b
    case _ => true
  }

  lemma StepKeeps(start: int, s: State, op: Op, s': State, b: Block)
    requires Good(start, s) && Step(start, s, op, s') && b in Live(s.blocks) && LeavesAlone(s, op, b)
    ensures b in Live(s'.blocks) && SamePayload(s.mem, s'.mem, b)
  {
    var j :| 0 <= j < |s.blocks| && s.blocks[j] == b;
    match op
    case Alloc(size) => AllocPlaces(start, s.blocks, size);
    case Release(k) =>
      FreeRemoves(start, s.blocks, k);
      assert b in Live(s'.blocks);
      var i :| 0 <= i < |s'.blocks| && s'.blocks[i] == b;
    case Ignore =>
    case Poke(k, x, w) =>
      if j < k { TilesDisjoint(start, s.blocks, j, k); } else { TilesDisjoint(start, s.blocks, k, j); }
  }

  // A block keeps its place and every word of its contents through any run of
  // other callers' operations, however the heap is split, extended and coalesced.
  lemma {:induction false} RunKeepsContents(start: int, states: seq<State>, ops: seq<Op>, b: Block, n: int)
    requires Run(start, states, ops) && Good(start, states[0]) && b in Live(states[0].blocks)
    requires forall i :: 0 <= i < |ops| ==> LeavesAlone(states[i], ops[i], b)
    requires 0 <= n < |states|
    ensures Good(start, states[n]) && b in Live(states[n].blocks)
    ensures SamePayload(states[0].mem, states[n].mem, b)
    decreases n
  {
    if n > 0 {
      RunKeepsContents(start, states, ops, b, n - 1);
      StepGood(start, states[n - 1], ops[n - 1], states[n]);
      StepKeeps(start, states[n - 1], ops[n - 1], states[n], b);
    }
  }
}
