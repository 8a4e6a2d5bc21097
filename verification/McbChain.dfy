/** DOS paragraph allocation as a list of blocks: the arithmetic of crates/dos/src/memory.rs. */
module McbChains {
  import opened Wrappers
  import opened Machine

  const FIRST_SEGMENT := 0x1000
  const FIRST_MCB := FIRST_SEGMENT - 1
  const END_SEGMENT := 640 * 1024 / 16
  const AVAILABLE := END_SEGMENT - FIRST_SEGMENT

  // A header paragraph and the paragraphs behind it; owner zero marks them as unused.
  datatype Block = Block(mcb: nat, owner: Word, paragraphs: nat) {
    function Next(): nat { mcb + 1 + paragraphs }
    predicate Free() { owner == 0 }
  }

  datatype DosError = InsufficientMemory(available: nat) | InvalidMemoryBlock | MemoryCorrupted

  // ----- tilings

  /** The blocks cover [from, to) without gaps or overlaps, in order. */
  ghost predicate Tiles(blocks: seq<Block>, from: nat, to: nat) {
    if blocks == [] then from == to
    else blocks[0].mcb == from && Tiles(blocks[1..], blocks[0].Next(), to)
  }

  ghost predicate Arena(blocks: seq<Block>) {
    Tiles(blocks, FIRST_MCB, END_SEGMENT)
  }

  lemma {:induction false} TilesOrder(blocks: seq<Block>, from: nat, to: nat)
    requires Tiles(blocks, from, to)
    ensures from + |blocks| <= to
    decreases |blocks|
  {
    if blocks != [] {
      TilesOrder(blocks[1..], blocks[0].Next(), to);
    }
  }

  lemma {:induction false} TilesConcat(a: seq<Block>, b: seq<Block>, from: nat, mid: nat, to: nat)
    requires Tiles(a, from, mid) && Tiles(b, mid, to)
    ensures Tiles(a + b, from, to)
    decreases |a|
  {
    if a == [] {
      assert a + b == b;
    } else {
      TilesConcat(a[1..], b, a[0].Next(), mid, to);
      assert (a + b)[1..] == a[1..] + b;
    }
  }

  lemma {:induction false} TilesSplit(blocks: seq<Block>, i: nat, from: nat, to: nat)
    requires Tiles(blocks, from, to) && i < |blocks|
    ensures Tiles(blocks[..i], from, blocks[i].mcb)
    ensures Tiles(blocks[i + 1..], blocks[i].Next(), to)
    decreases i
  {
    if i != 0 {
      TilesSplit(blocks[1..], i - 1, blocks[0].Next(), to);
      assert blocks[..i][1..] == blocks[1..][..i - 1];
      assert blocks[1..][i..] == blocks[i + 1..];
    }
  }

  /** Blocks of a tiling never share a paragraph. */
  lemma TilesDisjoint(blocks: seq<Block>, i: nat, j: nat, from: nat, to: nat)
    requires Tiles(blocks, from, to) && i < j < |blocks|
    ensures from <= blocks[i].mcb && blocks[i].Next() <= blocks[j].mcb && blocks[j].Next() <= to
  {
    TilesSplit(blocks, j, from, to);
    TilesOrder(blocks[j + 1..], blocks[j].Next(), to);
    TilesSplit(blocks[..j], i, from, blocks[j].mcb);
    TilesOrder(blocks[..j][..i], from, blocks[i].mcb);
    TilesOrder(blocks[..j][i + 1..], blocks[i].Next(), blocks[j].mcb);
  }

  // One block may be exchanged for others that tile the same paragraphs.
  lemma TilesReplace(blocks: seq<Block>, i: nat, middle: seq<Block>, from: nat, to: nat)
    requires Tiles(blocks, from, to) && i < |blocks|
    requires Tiles(middle, blocks[i].mcb, blocks[i].Next())
    ensures Tiles(blocks[..i] + middle + blocks[i + 1..], from, to)
  {
    TilesSplit(blocks, i, from, to);
    TilesConcat(blocks[..i], middle, from, blocks[i].mcb, blocks[i].Next());
    TilesConcat(blocks[..i] + middle, blocks[i + 1..], from, blocks[i].Next(), to);
  }

  // ----- live blocks

  /** What the guest owns: each allocated segment with its owner and size. */
  ghost function Live(blocks: seq<Block>): map<nat, (Word, nat)> {
    if blocks == [] then map[]
    else
      var rest := Live(blocks[1..]);
      if blocks[0].Free() then rest else rest[blocks[0].mcb + 1 := (blocks[0].owner, blocks[0].paragraphs)]
  }

  lemma {:induction false} LiveBounds(blocks: seq<Block>, from: nat, to: nat, segment: nat)
    requires Tiles(blocks, from, to) && segment in Live(blocks)
    ensures from < segment <= to
    decreases |blocks|
  {
    TilesOrder(blocks, from, to);
    TilesOrder(blocks[1..], blocks[0].Next(), to);
    if segment in Live(blocks[1..]) {
      LiveBounds(blocks[1..], blocks[0].Next(), to, segment);
    }
  }

  lemma {:induction false} LiveConcat(a: seq<Block>, b: seq<Block>, from: nat, mid: nat, to: nat)
    requires Tiles(a, from, mid) && Tiles(b, mid, to)
    ensures Live(a + b) == Live(a) + Live(b)
    ensures Live(a).Keys !! Live(b).Keys
    decreases |a|
  {
    if a == [] {
      assert a + b == b;
    } else {
      assert (a + b)[1..] == a[1..] + b;
      LiveConcat(a[1..], b, a[0].Next(), mid, to);
      if a[0].mcb + 1 in Live(b) {
        TilesOrder(a[1..], a[0].Next(), mid);
        LiveBounds(b, mid, to, a[0].mcb + 1);
      }
    }
  }

  lemma LiveAt(blocks: seq<Block>, i: nat, from: nat, to: nat)
    requires Tiles(blocks, from, to) && i < |blocks|
    ensures var others := Live(blocks[..i]) + Live(blocks[i + 1..]);
            && blocks[i].mcb + 1 !in others
            && Live(blocks) == if blocks[i].Free() then others
                               else others[blocks[i].mcb + 1 := (blocks[i].owner, blocks[i].paragraphs)]
  {
    LiveParts(blocks, i, from, to);
    TilesSplit(blocks, i, from, to);
    LiveOne(blocks[i]);
    hide Live, Tiles;
    var segment := blocks[i].mcb + 1;
    if segment in Live(blocks[..i]) { LiveBounds(blocks[..i], from, blocks[i].mcb, segment); }
    if segment in Live(blocks[i + 1..]) { LiveBounds(blocks[i + 1..], blocks[i].Next(), to, segment); }
  }

  lemma LiveOne(block: Block)
    ensures Live([block]) == if block.Free() then map[] else map[block.mcb + 1 := (block.owner, block.paragraphs)]
  {
    assert [block][1..] == [] && Live([]) == map[];
  }

  lemma LiveParts(blocks: seq<Block>, i: nat, from: nat, to: nat)
    requires Tiles(blocks, from, to) && i < |blocks|
    ensures Live(blocks) == Live(blocks[..i]) + (Live([blocks[i]]) + Live(blocks[i + 1..]))
  {
    var one := [blocks[i]];
    TilesSplit(blocks, i, from, to);
    assert Tiles(one, blocks[i].mcb, blocks[i].Next()) by { assert one[1..] == []; }
    assert blocks == blocks[..i] + (one + blocks[i + 1..]);
    hide Live;
    TilesConcat(one, blocks[i + 1..], blocks[i].mcb, blocks[i].Next(), to);
    LiveConcat(one, blocks[i + 1..], blocks[i].mcb, blocks[i].Next(), to);
    LiveConcat(blocks[..i], one + blocks[i + 1..], from, blocks[i].mcb, to);
  }


  lemma LiveReplace(blocks: seq<Block>, i: nat, middle: seq<Block>, from: nat, to: nat)
    requires Tiles(blocks, from, to) && i < |blocks|
    requires Tiles(middle, blocks[i].mcb, blocks[i].Next())
    ensures Live(blocks[..i] + middle + blocks[i + 1..])
            == Live(blocks[..i]) + Live(blocks[i + 1..]) + Live(middle)
  {
    TilesSplit(blocks, i, from, to);
    TilesConcat(blocks[..i], middle, from, blocks[i].mcb, blocks[i].Next());
    LiveConcat(blocks[..i], middle, from, blocks[i].mcb, blocks[i].Next());
    LiveConcat(blocks[..i] + middle, blocks[i + 1..], from, blocks[i].Next(), to);
    LiveConcat(middle, blocks[i + 1..], blocks[i].mcb, blocks[i].Next(), to);
  }

  // ----- coalescing

  ghost predicate Coalesced(blocks: seq<Block>) {
    forall i | 0 <= i < |blocks| - 1 :: !(blocks[i].Free() && blocks[i + 1].Free())
  }

  function Merge(a: Block, b: Block): Block {
    a.(paragraphs := a.paragraphs + 1 + b.paragraphs)
  }

  function Coalesce(blocks: seq<Block>): seq<Block>
    decreases |blocks|
  {
    if |blocks| < 2 then blocks
    else if blocks[0].Free() && blocks[1].Free() then Coalesce([Merge(blocks[0], blocks[1])] + blocks[2..])
    else [blocks[0]] + Coalesce(blocks[1..])
  }

  // The first block stays first, and stays free or owned.
  lemma {:induction false} CoalesceHead(blocks: seq<Block>)
    requires blocks != []
    ensures var after := Coalesce(blocks);
            && after != [] && after[0].mcb == blocks[0].mcb && after[0].owner == blocks[0].owner
            && (!blocks[0].Free() ==> after[0] == blocks[0])
    decreases |blocks|
  {
    if |blocks| >= 2 && blocks[0].Free() && blocks[1].Free() {
      CoalesceHead([Merge(blocks[0], blocks[1])] + blocks[2..]);
    }
  }

  /** Coalescing keeps the tiling and every owned block, and leaves no two free neighbours. */
  lemma {:induction false} CoalesceSound(blocks: seq<Block>, from: nat, to: nat)
    requires Tiles(blocks, from, to)
    ensures var after := Coalesce(blocks);
            Tiles(after, from, to) && Live(after) == Live(blocks) && Coalesced(after)
    decreases |blocks|
  {
    if |blocks| >= 2 {
      if blocks[0].Free() && blocks[1].Free() {
        var merged := [Merge(blocks[0], blocks[1])] + blocks[2..];
        assert blocks[1..][1..] == blocks[2..] && merged[1..] == blocks[2..];
        CoalesceSound(merged, from, to);
      } else {
        var rest := Coalesce(blocks[1..]);
        CoalesceSound(blocks[1..], blocks[0].Next(), to);
        CoalesceHead(blocks[1..]);
        assert Coalesce(blocks)[1..] == rest;
        forall i | 0 <= i < |rest| ensures !(Coalesce(blocks)[i].Free() && Coalesce(blocks)[i + 1].Free()) {
          if i != 0 { assert !(rest[i - 1].Free() && rest[i].Free()); }
        }
      }
    }
  }

  lemma CoalescedTail(blocks: seq<Block>)
    requires Coalesced(blocks) && blocks != []
    ensures Coalesced(blocks[1..])
    ensures |blocks| >= 2 ==> !(blocks[0].Free() && blocks[1].Free())
  {
    forall i | 0 <= i < |blocks| - 2 ensures !(blocks[1..][i].Free() && blocks[1..][i + 1].Free()) {
      assert !(blocks[i + 1].Free() && blocks[i + 2].Free());
    }
  }

  lemma {:induction false} CoalesceIdle(blocks: seq<Block>)
    requires Coalesced(blocks)
    ensures Coalesce(blocks) == blocks
    decreases |blocks|
  {
    if |blocks| >= 2 {
      CoalescedTail(blocks);
      CoalesceIdle(blocks[1..]);
    }
  }

  // The source's loop: a coalesced prefix never changes again.
  lemma {:induction false} CoalescePrefix(done: seq<Block>, rest: seq<Block>)
    requires rest != [] && Coalesced(done + [rest[0]])
    ensures Coalesce(done + rest) == done + Coalesce(rest)
    decreases |done|
  {
    hide Coalesced, Merge;
    if done == [] {
      assert done + rest == rest;
    } else {
      var all, known := done + rest, done + [rest[0]];
      CoalescedTail(known);
      assert known[1..] == done[1..] + [rest[0]];
      CoalescePrefix(done[1..], rest);
      assert all[0] == known[0] && all[1] == known[1];
      assert all[1..] == done[1..] + rest;
      assert Coalesce(all) == [done[0]] + (done[1..] + Coalesce(rest));
    }
  }

  method CoalesceInPlace(original: seq<Block>) returns (blocks: seq<Block>)
    ensures blocks == Coalesce(original)
  {
    blocks := original;
    var index := 0;
    while index + 1 < |blocks|
      invariant blocks == [] || 0 <= index < |blocks|
      invariant Coalesced(blocks[..if blocks == [] then 0 else index + 1])
      invariant Coalesce(blocks) == Coalesce(original)
      decreases |blocks| - index
    {
      CoalesceUnfold(blocks, index);
      if blocks[index].Free() && blocks[index + 1].Free() {
        blocks := blocks[..index] + [Merge(blocks[index], blocks[index + 1])] + blocks[index + 2..];
      } else {
        index := index + 1;
      }
    }
    if blocks != [] {
      assert blocks[..index + 1] == blocks;
    }
    CoalesceIdle(blocks);
  }

  // One turn of the loop at a coalesced prefix.
  lemma CoalesceUnfold(blocks: seq<Block>, index: nat)
    requires index + 1 < |blocks| && Coalesced(blocks[..index + 1])
    ensures var merged := blocks[..index] + [Merge(blocks[index], blocks[index + 1])] + blocks[index + 2..];
            if blocks[index].Free() && blocks[index + 1].Free() then
              Coalesce(blocks) == Coalesce(merged) && Coalesced(merged[..index + 1])
            else Coalesced(blocks[..index + 2])
  {
    var before := blocks[..index + 1];
    if blocks[index].Free() && blocks[index + 1].Free() {
      var tail := [Merge(blocks[index], blocks[index + 1])] + blocks[index + 2..];
      var merged := blocks[..index] + [Merge(blocks[index], blocks[index + 1])] + blocks[index + 2..];
      assert merged == blocks[..index] + tail && blocks == blocks[..index] + blocks[index..];
      assert blocks[index..][2..] == blocks[index + 2..];
      assert before == blocks[..index] + [blocks[index..][0]];
      CoalescePrefix(blocks[..index], blocks[index..]);
      forall i | 0 <= i < index ensures !(merged[i].Free() && merged[i + 1].Free()) {
        assert !(before[i].Free() && before[i + 1].Free());
      }
      assert before[..index] == blocks[..index];
      PrefixCoalesced(before, index, tail[0]);
      CoalescePrefix(blocks[..index], tail);
    } else {
      forall i | 0 <= i < index + 1 ensures !(blocks[i].Free() && blocks[i + 1].Free()) {
        if i < index { assert !(before[i].Free() && before[i + 1].Free()); }
      }
    }
  }

  // ----- searching

  predicate Fits(block: Block, paragraphs: nat) {
    block.Free() && block.paragraphs >= paragraphs
  }

  /** First fit: the lowest free block that is large enough. */
  function FirstFit(blocks: seq<Block>, paragraphs: nat): (index: Option<nat>)
    ensures index.Some? ==>
              && index.value < |blocks| && Fits(blocks[index.value], paragraphs)
              && forall i | 0 <= i < index.value :: !Fits(blocks[i], paragraphs)
    ensures index.None? ==> forall b <- blocks :: !Fits(b, paragraphs)
    decreases |blocks|
  {
    if blocks == [] then None
    else if Fits(blocks[0], paragraphs) then Some(0)
    else
      match FirstFit(blocks[1..], paragraphs)
      case None =>
        assert blocks == [blocks[0]] + blocks[1..];
        None
      case Some(i) =>
        assert forall j | 0 < j <= i :: blocks[j] == blocks[1..][j - 1];
        Some(i + 1)
  }

  /** The size of the largest free block, or zero. */
  function LargestFree(blocks: seq<Block>): (size: nat)
    ensures forall b <- blocks | b.Free() :: b.paragraphs <= size
    ensures size != 0 ==> exists b <- blocks :: b.Free() && b.paragraphs == size
    decreases |blocks|
  {
    if blocks == [] then 0
    else
      assert blocks == [blocks[0]] + blocks[1..];
      var rest := LargestFree(blocks[1..]);
      if blocks[0].Free() && blocks[0].paragraphs > rest then blocks[0].paragraphs else rest
  }

  predicate IsAllocation(block: Block, segment: Word) {
    block.mcb + 1 == segment && !block.Free()
  }

  function AllocatedBlock(blocks: seq<Block>, segment: Word): (index: Option<nat>)
    ensures index.Some? ==> index.value < |blocks| && IsAllocation(blocks[index.value], segment)
    ensures index.None? ==> forall b <- blocks :: !IsAllocation(b, segment)
    decreases |blocks|
  {
    if blocks == [] then None
    else if IsAllocation(blocks[0], segment) then Some(0)
    else
      match AllocatedBlock(blocks[1..], segment)
      case None =>
        assert blocks == [blocks[0]] + blocks[1..];
        None
      case Some(i) => Some(i + 1)
  }

  lemma {:induction false} LiveMember(blocks: seq<Block>, segment: nat)
    requires segment in Live(blocks)
    ensures exists b <- blocks :: b.mcb + 1 == segment && !b.Free()
    decreases |blocks|
  {
    if segment in Live(blocks[1..]) {
      LiveMember(blocks[1..], segment);
      var b :| b in blocks[1..] && b.mcb + 1 == segment && !b.Free();
      assert b in blocks;
    } else {
      assert blocks[0] in blocks;
    }
  }

  /** A segment is found exactly when it is live. */
  lemma AllocatedIsLive(blocks: seq<Block>, segment: Word, from: nat, to: nat)
    requires Tiles(blocks, from, to)
    ensures AllocatedBlock(blocks, segment).Some? <==> segment in Live(blocks)
  {
    if segment in Live(blocks) {
      LiveMember(blocks, segment);
    }
    var index := AllocatedBlock(blocks, segment);
    if index.Some? {
      LiveAt(blocks, index.value, from, to);
    }
  }

  // ----- the three operations on block lists

  // The front of a block, and the free remainder if it is longer.
  function Split(block: Block, paragraphs: nat): seq<Block>
    requires paragraphs <= block.paragraphs
  {
    if paragraphs < block.paragraphs then
      [block.(paragraphs := paragraphs),
       Block(block.mcb + 1 + paragraphs, 0, block.paragraphs - paragraphs - 1)]
    else [block]
  }

  lemma SplitTiles(block: Block, paragraphs: nat)
    requires paragraphs <= block.paragraphs
    ensures Tiles(Split(block, paragraphs), block.mcb, block.Next())
    ensures Split(block, paragraphs)[0] == block.(paragraphs := paragraphs)
    ensures Live(Split(block, paragraphs))
            == if block.Free() then map[] else map[block.mcb + 1 := (block.owner, paragraphs)]
  {
    var parts := Split(block, paragraphs);
    if |parts| == 2 {
      assert parts[1..] == [parts[1]] && parts[1..][1..] == [];
      assert Live(parts[1..]) == map[];
    } else {
      assert parts[1..] == [];
    }
  }

  function AllocateIn(blocks: seq<Block>, paragraphs: nat, owner: Word): Result<(seq<Block>, nat), DosError> {
    match FirstFit(blocks, paragraphs)
    case None => Err(InsufficientMemory(LargestFree(blocks)))
    case Some(i) =>
      Ok((blocks[..i] + Split(blocks[i].(owner := owner), paragraphs) + blocks[i + 1..], blocks[i].mcb + 1))
  }

  function FreeIn(blocks: seq<Block>, segment: Word): Result<seq<Block>, DosError> {
    match AllocatedBlock(blocks, segment)
    case None => Err(InvalidMemoryBlock)
    case Some(i) => Ok(Coalesce(blocks[i := blocks[i].(owner := 0)]))
  }

  // A block joined with the free block that follows it, if any.
  function Absorb(blocks: seq<Block>, i: nat): (seq<Block>)
    requires i < |blocks|
  {
    if i + 1 < |blocks| && blocks[i + 1].Free() then
      blocks[..i] + [Merge(blocks[i], blocks[i + 1])] + blocks[i + 2..]
    else blocks
  }

  // The new list, and the error that a request beyond the available size reports after growing.
  function ResizeIn(
      blocks: seq<Block>, segment: Word, paragraphs: nat): Result<(seq<Block>, Option<DosError>), DosError> {
    match AllocatedBlock(blocks, segment)
    case None => Err(InvalidMemoryBlock)
    case Some(i) =>
      var grown := if paragraphs > blocks[i].paragraphs then Absorb(blocks, i) else blocks;
      GrownAt(blocks, i);
      if paragraphs > grown[i].paragraphs then
        Ok((Coalesce(grown), Some(InsufficientMemory(grown[i].paragraphs))))
      else
        Ok((Coalesce(grown[..i] + Split(grown[i], paragraphs) + grown[i + 1..]), None))
  }

  lemma GrownAt(blocks: seq<Block>, i: nat)
    requires i < |blocks|
    ensures i < |Absorb(blocks, i)| && Absorb(blocks, i)[i].mcb == blocks[i].mcb
    ensures Absorb(blocks, i)[i].owner == blocks[i].owner
    ensures Absorb(blocks, i)[i].paragraphs >= blocks[i].paragraphs
  {}

  lemma AbsorbSound(blocks: seq<Block>, i: nat, from: nat, to: nat)
    requires Tiles(blocks, from, to) && i < |blocks| && !blocks[i].Free()
    ensures var grown := Absorb(blocks, i);
            && Tiles(grown, from, to) && i < |grown|
            && Live(grown) == Live(blocks)[blocks[i].mcb + 1 := (blocks[i].owner, grown[i].paragraphs)]
  {
    LiveAt(blocks, i, from, to);
    if i + 1 < |blocks| && blocks[i + 1].Free() {
      AbsorbTiles(blocks, i, from, to);
      var tail, grown := blocks[i + 1..], Absorb(blocks, i);
      LiveAt(grown, i, from, to);
      assert grown[..i] == blocks[..i] && grown[i + 1..] == tail[1..];
      assert Live(tail) == Live(tail[1..]);
    }
  }

  lemma AbsorbTiles(blocks: seq<Block>, i: nat, from: nat, to: nat)
    requires Tiles(blocks, from, to) && i + 1 < |blocks| && blocks[i + 1].Free()
    ensures Tiles(Absorb(blocks, i), from, to)
  {
    TilesSplit(blocks, i, from, to);
    var tail, merged := blocks[i + 1..], Merge(blocks[i], blocks[i + 1]);
    assert tail[0] == blocks[i + 1] && tail[1..] == blocks[i + 2..];
    var one := [merged];
    assert one[1..] == [];
    assert Tiles(one, merged.mcb, merged.Next());
    TilesConcat(one, blocks[i + 2..], merged.mcb, merged.Next(), to);
    TilesConcat(blocks[..i], one + blocks[i + 2..], from, merged.mcb, to);
    assert Absorb(blocks, i) == blocks[..i] + (one + blocks[i + 2..]);
  }

  // ----- what the operations do to the guest's memory map

  lemma TakeSound(blocks: seq<Block>, i: nat, paragraphs: nat, owner: Word)
    requires Arena(blocks) && Coalesced(blocks)
    requires i < |blocks| && Fits(blocks[i], paragraphs)
    ensures var after := blocks[..i] + Split(blocks[i].(owner := owner), paragraphs) + blocks[i + 1..];
            var segment := blocks[i].mcb + 1;
            && Arena(after) && (Coalesced(after) <==> owner != 0 || blocks[i].paragraphs == paragraphs)
            && segment !in Live(blocks) && FIRST_SEGMENT <= segment <= END_SEGMENT
            && Live(after) == if owner == 0 then Live(blocks) else Live(blocks)[segment := (owner, paragraphs)]
  {
    var taken := blocks[i].(owner := owner);
    var parts := Split(taken, paragraphs);
    SplitTiles(taken, paragraphs);
    TilesReplace(blocks, i, parts, FIRST_MCB, END_SEGMENT);
    LiveReplace(blocks, i, parts, FIRST_MCB, END_SEGMENT);
    LiveAt(blocks, i, FIRST_MCB, END_SEGMENT);
    SegmentRange(blocks, i);
    AllocateCoalesced(blocks, i, parts);
  }

  lemma SegmentRange(blocks: seq<Block>, i: nat)
    requires Arena(blocks) && i < |blocks|
    ensures FIRST_SEGMENT <= blocks[i].mcb + 1 <= blocks[i].Next() <= END_SEGMENT
  {
    TilesSplit(blocks, i, FIRST_MCB, END_SEGMENT);
    TilesOrder(blocks[..i], FIRST_MCB, blocks[i].mcb);
    TilesOrder(blocks[i + 1..], blocks[i].Next(), END_SEGMENT);
  }

  // Whether the block that would be taken has exactly the requested size.
  predicate ExactFit(blocks: seq<Block>, paragraphs: nat) {
    var index := FirstFit(blocks, paragraphs);
    index.Some? && blocks[index.value].paragraphs == paragraphs
  }

  // The segment of the first free block that is large enough.
  ghost predicate InFirstFit(blocks: seq<Block>, paragraphs: nat, segment: nat) {
    exists i | 0 <= i < |blocks| ::
      && segment == blocks[i].mcb + 1 && blocks[i].Free() && blocks[i].paragraphs >= paragraphs
      && forall j | 0 <= j < i :: !(blocks[j].Free() && blocks[j].paragraphs >= paragraphs)
  }

  /** Allocation adds exactly one new segment of exactly the requested size, or fails precisely
      because no free block is large enough, reporting the largest. For owner zero nothing becomes
      live, and unless the block taken has the requested size it is left as two free neighbours. */
  lemma AllocateSound(blocks: seq<Block>, paragraphs: nat, owner: Word)
    requires Arena(blocks) && Coalesced(blocks)
    ensures match AllocateIn(blocks, paragraphs, owner)
            case Ok((after, segment)) =>
              && Arena(after) && (Coalesced(after) <==> owner != 0 || ExactFit(blocks, paragraphs))
              && segment !in Live(blocks) && FIRST_SEGMENT <= segment <= END_SEGMENT
              && Live(after) == (if owner == 0 then Live(blocks) else Live(blocks)[segment := (owner, paragraphs)])
            case Err(error) =>
              && (forall b <- blocks | b.Free() :: b.paragraphs < paragraphs)
              && error == InsufficientMemory(LargestFree(blocks))
    ensures AllocateIn(blocks, paragraphs, owner).Ok? ==>
              InFirstFit(blocks, paragraphs, AllocateIn(blocks, paragraphs, owner).value.1)
  {
    hide Arena, Coalesced, Live, Split;
    var index := FirstFit(blocks, paragraphs);
    if index.Some? {
      assert InFirstFit(blocks, paragraphs, blocks[index.value].mcb + 1);
      TakeSound(blocks, index.value, paragraphs, owner);
    } else {
      forall b | b in blocks && b.Free() ensures b.paragraphs < paragraphs {
        assert !Fits(b, paragraphs);
      }
    }
  }

  // Taking a block of coalesced ones leaves free neighbours exactly when both its parts are free.
  lemma AllocateCoalesced(blocks: seq<Block>, i: nat, parts: seq<Block>)
    requires Coalesced(blocks) && i < |blocks| && blocks[i].Free()
    requires 1 <= |parts| <= 2
    ensures Coalesced(blocks[..i] + parts + blocks[i + 1..]) <==> !parts[0].Free() || |parts| == 1 || !parts[1].Free()
  {
    var after := blocks[..i] + parts + blocks[i + 1..];
    assert after[i] == parts[0];
    if |parts| == 2 && parts[0].Free() && parts[1].Free() {
      assert after[i + 1] == parts[1];
    } else {
      forall k | 0 <= k < |after| - 1 ensures !(after[k].Free() && after[k + 1].Free()) {
        if k + 1 <= i {
          assert !(blocks[k].Free() && blocks[k + 1].Free());
        } else if k >= i + |parts| {
          assert !(blocks[k - |parts| + 1].Free() && blocks[k - |parts| + 2].Free());
        } else if k == i + |parts| - 1 {
          assert !(blocks[i].Free() && blocks[i + 1].Free());
        }
      }
    }
  }

  /** Freeing removes exactly the named segment; anything else is refused. */
  lemma FreeSound(blocks: seq<Block>, segment: Word)
    requires Arena(blocks)
    ensures match FreeIn(blocks, segment)
            case Ok(after) =>
              && Arena(after) && Coalesced(after)
              && segment in Live(blocks) && Live(after) == Live(blocks) - {segment}
            case Err(error) => segment !in Live(blocks) && error == InvalidMemoryBlock
  {
    AllocatedIsLive(blocks, segment, FIRST_MCB, END_SEGMENT);
    var index := AllocatedBlock(blocks, segment);
    if index.Some? {
      var i := index.value;
      var freed := blocks[i := blocks[i].(owner := 0)];
      FreedTiles(blocks, i, FIRST_MCB, END_SEGMENT);
      LiveAt(blocks, i, FIRST_MCB, END_SEGMENT);
      LiveAt(freed, i, FIRST_MCB, END_SEGMENT);
      assert freed[..i] == blocks[..i] && freed[i + 1..] == blocks[i + 1..];
      CoalesceSound(freed, FIRST_MCB, END_SEGMENT);
    }
  }

  lemma FreedTiles(blocks: seq<Block>, i: nat, from: nat, to: nat)
    requires Tiles(blocks, from, to) && i < |blocks|
    ensures Tiles(blocks[i := blocks[i].(owner := 0)], from, to)
  {
    var one := [blocks[i].(owner := 0)];
    assert one[1..] == [];
    assert Tiles(one, blocks[i].mcb, blocks[i].Next());
    TilesReplace(blocks, i, one, from, to);
    assert blocks[i := blocks[i].(owner := 0)] == blocks[..i] + one + blocks[i + 1..];
  }

  /** Resizing changes exactly the named segment's size: to the request if it fits, and otherwise
      to everything its free neighbour can give, which is then what the error reports. */
  lemma ResizeSound(blocks: seq<Block>, segment: Word, paragraphs: nat)
    requires Arena(blocks) && Coalesced(blocks)
    ensures match ResizeIn(blocks, segment, paragraphs)
            case Ok((after, error)) =>
              && Arena(after) && Coalesced(after) && segment in Live(blocks)
              && var size := if error.Some? then error.value.available else paragraphs;
              && Live(after) == Live(blocks)[segment := (Live(blocks)[segment].0, size)]
              && (error.Some? ==> Live(blocks)[segment].1 <= size < paragraphs && Hemmed(after, segment))
            case Err(error) => segment !in Live(blocks) && error == InvalidMemoryBlock
  {
    AllocatedIsLive(blocks, segment, FIRST_MCB, END_SEGMENT);
    var index := AllocatedBlock(blocks, segment);
    if index.Some? {
      var i := index.value;
      GrownAt(blocks, i);
      LiveAt(blocks, i, FIRST_MCB, END_SEGMENT);
      assert Live(blocks)[segment] == (blocks[i].owner, blocks[i].paragraphs);
      if paragraphs > blocks[i].paragraphs {
        GrowSound(blocks, i, paragraphs);
      } else {
        ShrinkSound(blocks, i, paragraphs);
      }
    }
  }

  lemma GrowSound(blocks: seq<Block>, i: nat, paragraphs: nat)
    requires Arena(blocks) && Coalesced(blocks) && i < |blocks| && !blocks[i].Free() && i < |Absorb(blocks, i)|
    ensures paragraphs > Absorb(blocks, i)[i].paragraphs ==> Hemmed(Coalesce(Absorb(blocks, i)), blocks[i].mcb + 1)
    ensures var grown := Absorb(blocks, i);
            var size := if paragraphs > grown[i].paragraphs then grown[i].paragraphs else paragraphs;
            var after := if paragraphs > grown[i].paragraphs then Coalesce(grown)
                         else Coalesce(grown[..i] + Split(grown[i], paragraphs) + grown[i + 1..]);
            && Arena(after) && Coalesced(after)
            && Live(after) == Live(blocks)[blocks[i].mcb + 1 := (blocks[i].owner, size)]
  {
    var grown := Absorb(blocks, i);
    AbsorbSound(blocks, i, FIRST_MCB, END_SEGMENT);
    GrownAt(blocks, i);
    if paragraphs > grown[i].paragraphs {
      AbsorbCoalesced(blocks, i);
      CoalesceIdle(grown);
    } else {
      ShrinkSound(grown, i, paragraphs);
    }
  }

  // A segment with nothing free right behind it.
  ghost predicate Hemmed(blocks: seq<Block>, segment: nat) {
    exists i | 0 <= i < |blocks| ::
      blocks[i].mcb + 1 == segment && (i + 1 == |blocks| || !blocks[i + 1].Free())
  }

  lemma AbsorbCoalesced(blocks: seq<Block>, i: nat)
    requires Coalesced(blocks) && i < |blocks| && !blocks[i].Free()
    ensures var grown := Absorb(blocks, i);
            Coalesced(grown) && i < |grown| && (i + 1 == |grown| || !grown[i + 1].Free())
  {
    var grown := Absorb(blocks, i);
    var taken := |blocks| - |grown|;
    if taken == 1 && i + 2 < |blocks| {
      assert !(blocks[i + 1].Free() && blocks[i + 2].Free());
    }
    forall k | 0 <= k < |grown| - 1 ensures !(grown[k].Free() && grown[k + 1].Free()) {
      if k + 1 < i {
        assert !(blocks[k].Free() && blocks[k + 1].Free());
      } else if k > i {
        assert !(blocks[k + taken].Free() && blocks[k + taken + 1].Free());
      }
    }
  }

  lemma ShrinkSound(blocks: seq<Block>, i: nat, paragraphs: nat)
    requires Arena(blocks) && i < |blocks| && !blocks[i].Free() && paragraphs <= blocks[i].paragraphs
    ensures var after := Coalesce(blocks[..i] + Split(blocks[i], paragraphs) + blocks[i + 1..]);
            && Arena(after) && Coalesced(after)
            && Live(after) == Live(blocks)[blocks[i].mcb + 1 := (blocks[i].owner, paragraphs)]
  {
    var parts := Split(blocks[i], paragraphs);
    SplitTiles(blocks[i], paragraphs);
    TilesReplace(blocks, i, parts, FIRST_MCB, END_SEGMENT);
    LiveReplace(blocks, i, parts, FIRST_MCB, END_SEGMENT);
    LiveAt(blocks, i, FIRST_MCB, END_SEGMENT);
    CoalesceSound(blocks[..i] + parts + blocks[i + 1..], FIRST_MCB, END_SEGMENT);
  }

  // ----- round trip

  lemma SegmentUnique(blocks: seq<Block>, i: nat, segment: Word)
    requires Arena(blocks) && i < |blocks| && IsAllocation(blocks[i], segment)
    ensures AllocatedBlock(blocks, segment) == Some(i)
  {
    var found := AllocatedBlock(blocks, segment);
    assert blocks[i] in blocks;
    var j := found.value;
    if j < i {
      TilesDisjoint(blocks, j, i, FIRST_MCB, END_SEGMENT);
    } else if i < j {
      TilesDisjoint(blocks, i, j, FIRST_MCB, END_SEGMENT);
    }
  }

  // Freeing the front of a split block makes it whole again.
  lemma SplitMends(blocks: seq<Block>, i: nat, paragraphs: nat)
    requires Coalesced(blocks) && i < |blocks| && Fits(blocks[i], paragraphs)
    ensures Coalesce(blocks[..i] + Split(blocks[i], paragraphs) + blocks[i + 1..]) == blocks
  {
    hide Coalesce;
    var parts, done, rest := Split(blocks[i], paragraphs), blocks[..i], blocks[i + 1..];
    CoalesceIdle(blocks);
    if |parts| == 1 {
      assert done + parts + rest == blocks;
    } else {
      assert blocks == done + ([blocks[i]] + rest);
      assert done + parts + rest == done + (parts + rest);
      PrefixCoalesced(blocks, i, parts[0]);
      PrefixCoalesced(blocks, i, blocks[i]);
      CoalescePrefix(done, parts + rest);
      CoalescePrefix(done, [blocks[i]] + rest);
      MergedFront(parts[0], parts[1], rest);
    }
  }

  lemma MergedFront(a: Block, b: Block, rest: seq<Block>)
    requires a.Free() && b.Free()
    ensures Coalesce([a, b] + rest) == Coalesce([Merge(a, b)] + rest)
  {
    assert ([a, b] + rest)[2..] == rest;
  }

  lemma PrefixCoalesced(blocks: seq<Block>, i: nat, front: Block)
    requires Coalesced(blocks) && i < |blocks| && front.owner == blocks[i].owner
    ensures Coalesced(blocks[..i] + [front])
  {
    forall k | 0 <= k < i ensures !((blocks[..i] + [front])[k].Free() && (blocks[..i] + [front])[k + 1].Free()) {
      assert !(blocks[k].Free() && blocks[k + 1].Free());
    }
  }

  // Freeing the front of a split block leaves the block split as free.
  lemma FreedFront(before: seq<Block>, block: Block, owner: Word, paragraphs: nat, rest: seq<Block>)
    requires block.Free() && paragraphs <= block.paragraphs
    ensures var i := |before|;
            var after := before + Split(block.(owner := owner), paragraphs) + rest;
            after[i := after[i].(owner := 0)] == before + Split(block, paragraphs) + rest
  {
    var parts := Split(block.(owner := owner), paragraphs);
    var after := before + parts + rest;
    assert after[|before|] == parts[0];
    assert Split(block, paragraphs) == parts[0 := parts[0].(owner := 0)];
  }

  /** Allocating and freeing the result restores the original block list; what owner zero was given
      cannot be freed. */
  lemma AllocateThenFree(blocks: seq<Block>, paragraphs: nat, owner: Word)
    requires Arena(blocks) && Coalesced(blocks)
    ensures match AllocateIn(blocks, paragraphs, owner)
            case Ok((after, segment)) =>
              && segment < TWO_16
              && FreeIn(after, segment) == if owner == 0 then Err(InvalidMemoryBlock) else Ok(blocks)
            case Err(_) => true
  {
    hide Live, Tiles, Coalesce, Coalesced, LargestFree;
    var index := FirstFit(blocks, paragraphs);
    if index.Some? {
      var i := index.value;
      AllocateSound(blocks, paragraphs, owner);
      var parts := Split(blocks[i].(owner := owner), paragraphs);
      var after := blocks[..i] + parts + blocks[i + 1..];
      if owner == 0 {
        AllocatedIsLive(after, blocks[i].mcb + 1, FIRST_MCB, END_SEGMENT);
      } else {
        SegmentUnique(after, i, blocks[i].mcb + 1);
        SplitMends(blocks, i, paragraphs);
        FreedFront(blocks[..i], blocks[i], owner, paragraphs, blocks[i + 1..]);
      }
    }
  }

  /** Owner zero is the one allocation that does not allocate: nothing becomes live, the returned
      segment cannot be freed, and a block longer than the request is left as two free neighbours. */
  lemma OwnerZeroAllocatesNothing(blocks: seq<Block>, paragraphs: nat)
    requires Arena(blocks) && Coalesced(blocks)
    ensures match AllocateIn(blocks, paragraphs, 0)
            case Ok((after, segment)) =>
              && Arena(after) && Live(after) == Live(blocks)
              && (Coalesced(after) <==> ExactFit(blocks, paragraphs))
              && segment < TWO_16 && FreeIn(after, segment) == Err(InvalidMemoryBlock)
            case Err(_) => true
  {
    AllocateSound(blocks, paragraphs, 0);
    AllocateThenFree(blocks, paragraphs, 0);
  }
}
