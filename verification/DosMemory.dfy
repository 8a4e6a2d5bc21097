/** The DOS arena in guest RAM: its only state is a chain of five-byte headers. */
module DosMemory {
  import opened Wrappers
  import opened Machine
  import opened McbChains

  const ARENA_BYTES := END_SEGMENT * 16
  const MORE: Byte := 0x4d // 'M'
  const LAST: Byte := 0x5a // 'Z'

  function Address(b: Block): nat { b.mcb * 16 }

  predicate InHeader(b: Block, a: nat) {
    Address(b) <= a < Address(b) + 5
  }

  /** The bytes a program may use. */
  predicate InData(b: Block, a: nat) {
    Address(b) + 16 <= a < b.Next() * 16
  }

  // ----- reading the chain

  function BlockAt(s: seq<Byte>, mcb: nat): Block
    requires mcb < END_SEGMENT && |s| >= ARENA_BYTES
  {
    var a := mcb * 16;
    Block(mcb, LittleEndian(s[a + 1], s[a + 2]), LittleEndian(s[a + 3], s[a + 4]))
  }

  function Chain(s: seq<Byte>, mcb: nat): Result<seq<Block>, DosError>
    requires mcb < END_SEGMENT && |s| >= ARENA_BYTES
    decreases END_SEGMENT - mcb
  {
    var marker := s[mcb * 16];
    var block := BlockAt(s, mcb);
    var last := marker == LAST;
    if (marker != MORE && marker != LAST) || block.Next() > END_SEGMENT || last != (block.Next() == END_SEGMENT) then
      Err(MemoryCorrupted)
    else if last then
      Ok([block])
    else
      match Chain(s, block.Next())
      case Ok(rest) => Ok([block] + rest)
      case Err(error) => Err(error)
  }

  ghost predicate HeaderAt(s: seq<Byte>, b: Block, last: bool)
    requires b.mcb < END_SEGMENT && |s| >= ARENA_BYTES
  {
    s[Address(b)] == (if last then LAST else MORE) && BlockAt(s, b.mcb) == b
  }

  /** Every block has its header, and only the final one is marked last. */
  ghost predicate Stored(s: seq<Byte>, blocks: seq<Block>)
    requires |s| >= ARENA_BYTES
    decreases |blocks|
  {
    blocks != [] ==>
      && blocks[0].mcb < END_SEGMENT
      && HeaderAt(s, blocks[0], |blocks| == 1)
      && Stored(s, blocks[1..])
  }

  lemma {:induction false} ChainIsStored(s: seq<Byte>, mcb: nat)
    requires mcb < END_SEGMENT && |s| >= ARENA_BYTES
    ensures match Chain(s, mcb)
            case Ok(blocks) => blocks != [] && Tiles(blocks, mcb, END_SEGMENT) && Stored(s, blocks)
            case Err(error) => error == MemoryCorrupted
    decreases END_SEGMENT - mcb
  {
    var block := BlockAt(s, mcb);
    if block.Next() < END_SEGMENT {
      ChainIsStored(s, block.Next());
      match Chain(s, block.Next())
      case Ok(rest) => assert ([block] + rest)[1..] == rest;
      case Err(_) =>
    } else {
      assert [block][1..] == [];
    }
  }

  lemma {:induction false} StoredIsChain(s: seq<Byte>, mcb: nat, blocks: seq<Block>)
    requires mcb < END_SEGMENT && |s| >= ARENA_BYTES
    requires blocks != [] && Tiles(blocks, mcb, END_SEGMENT) && Stored(s, blocks)
    ensures Chain(s, mcb) == Ok(blocks)
    decreases |blocks|
  {
    var block, rest := blocks[0], blocks[1..];
    assert blocks == [block] + rest && BlockAt(s, mcb) == block;
    if rest != [] {
      TilesOrder(rest, block.Next(), END_SEGMENT);
      StoredIsChain(s, block.Next(), rest);
    } else {
      assert |blocks| == 1 && blocks == [block];
      assert HeaderAt(s, block, true);
    }
  }

  /** Reading succeeds exactly on a complete tiling whose headers are in place, and returns it. */
  lemma ChainIffStored(s: seq<Byte>, mcb: nat, blocks: seq<Block>)
    requires mcb < END_SEGMENT && |s| >= ARENA_BYTES
    ensures Chain(s, mcb) == Ok(blocks) <==> blocks != [] && Tiles(blocks, mcb, END_SEGMENT) && Stored(s, blocks)
  {
    ChainIsStored(s, mcb);
    if blocks != [] && Tiles(blocks, mcb, END_SEGMENT) && Stored(s, blocks) {
      StoredIsChain(s, mcb, blocks);
    }
  }

  // ----- writing the chain

  function Patch(s: seq<Byte>, b: Block, last: bool): seq<Byte>
    requires b.mcb < END_SEGMENT && b.paragraphs < TWO_16 && |s| >= ARENA_BYTES
  {
    var a := Address(b);
    s[a := if last then LAST else MORE][a + 1 := Low(b.owner)][a + 2 := High(b.owner)]
     [a + 3 := Low(b.paragraphs)][a + 4 := High(b.paragraphs)]
  }

  ghost predicate Encodable(blocks: seq<Block>) {
    forall i | 0 <= i < |blocks| :: blocks[i].Next() <= END_SEGMENT
  }

  ghost function Written(s: seq<Byte>, blocks: seq<Block>): (t: seq<Byte>)
    requires Encodable(blocks) && |s| >= ARENA_BYTES
    ensures |t| == |s|
    decreases |blocks|
  {
    if blocks == [] then s else Written(Patch(s, blocks[0], |blocks| == 1), blocks[1..])
  }

  lemma PatchHeader(s: seq<Byte>, b: Block, last: bool)
    requires b.mcb < END_SEGMENT && b.paragraphs < TWO_16 && |s| >= ARENA_BYTES
    ensures HeaderAt(Patch(s, b, last), b, last)
    ensures forall a | 0 <= a < |s| && !InHeader(b, a) :: Patch(s, b, last)[a] == s[a]
  {}

  /** Writing touches header bytes only. */
  lemma {:induction false} WrittenFrame(s: seq<Byte>, blocks: seq<Block>, a: nat)
    requires Encodable(blocks) && |s| >= ARENA_BYTES && a < |s|
    requires forall b <- blocks :: !InHeader(b, a)
    ensures Written(s, blocks)[a] == s[a]
    decreases |blocks|
  {
    if blocks != [] {
      PatchHeader(s, blocks[0], |blocks| == 1);
      WrittenFrame(Patch(s, blocks[0], |blocks| == 1), blocks[1..], a);
    }
  }

  lemma TilesEncodable(blocks: seq<Block>, from: nat, to: nat)
    requires Tiles(blocks, from, to) && to <= END_SEGMENT
    ensures Encodable(blocks)
    ensures forall b <- blocks :: from <= b.mcb
  {
    forall i | 0 <= i < |blocks| ensures from <= blocks[i].mcb && blocks[i].Next() <= END_SEGMENT {
      TilesSplit(blocks, i, from, to);
      TilesOrder(blocks[..i], from, blocks[i].mcb);
      TilesOrder(blocks[i + 1..], blocks[i].Next(), to);
    }
  }

  lemma {:induction false} WrittenStored(s: seq<Byte>, blocks: seq<Block>, from: nat)
    requires Tiles(blocks, from, END_SEGMENT) && |s| >= ARENA_BYTES && Encodable(blocks)
    ensures Stored(Written(s, blocks), blocks)
    decreases |blocks|
  {
    if blocks != [] {
      var b, rest, last := blocks[0], blocks[1..], |blocks| == 1;
      var patched := Patch(s, b, last);
      PatchHeader(s, b, last);
      TilesEncodable(rest, b.Next(), END_SEGMENT);
      WrittenStored(patched, rest, b.Next());
      var t := Written(patched, rest);
      forall a: nat | InHeader(b, a) && a < |s| ensures t[a] == patched[a] {
        WrittenFrame(patched, rest, a);
      }
      var a := Address(b);
      assert InHeader(b, a) && InHeader(b, a + 1) && InHeader(b, a + 2) && InHeader(b, a + 3) && InHeader(b, a + 4);
      assert BlockAt(t, b.mcb) == BlockAt(patched, b.mcb);
    }
  }

  /** `read_chain` inverts `write_chain` on every tiling of the arena. */
  lemma WriteThenRead(s: seq<Byte>, blocks: seq<Block>)
    requires Arena(blocks) && |s| >= ARENA_BYTES
    ensures Encodable(blocks)
    ensures Chain(Written(s, blocks), FIRST_MCB) == Ok(blocks)
  {
    TilesEncodable(blocks, FIRST_MCB, END_SEGMENT);
    WrittenStored(s, blocks, FIRST_MCB);
    ChainIffStored(Written(s, blocks), FIRST_MCB, blocks);
  }

  // ----- what operations leave alone

  /** Only headers of the new chain differ. */
  ghost predicate OnlyHeaders(s: seq<Byte>, t: seq<Byte>, blocks: seq<Block>) {
    && |t| == |s|
    && forall a | 0 <= a < |s| && (forall b <- blocks :: !InHeader(b, a)) :: t[a] == s[a]
  }

  lemma WrittenOnlyHeaders(s: seq<Byte>, blocks: seq<Block>)
    requires Encodable(blocks) && |s| >= ARENA_BYTES
    ensures OnlyHeaders(s, Written(s, blocks), blocks)
  {
    forall a | 0 <= a < |s| && (forall b <- blocks :: !InHeader(b, a)) ensures Written(s, blocks)[a] == s[a] {
      WrittenFrame(s, blocks, a);
    }
  }

  /** No header of a tiling lies in the data of any of its blocks, so every byte that belongs
      to a block afterwards is the byte that was there before. */
  lemma DataUntouched(s: seq<Byte>, t: seq<Byte>, blocks: seq<Block>, i: nat, a: nat)
    requires Arena(blocks) && OnlyHeaders(s, t, blocks)
    requires i < |blocks| && InData(blocks[i], a) && a < |s|
    ensures t[a] == s[a]
  {
    forall b | b in blocks ensures !InHeader(b, a) {
      var j :| 0 <= j < |blocks| && blocks[j] == b;
      if j < i {
        TilesDisjoint(blocks, j, i, FIRST_MCB, END_SEGMENT);
      } else if i < j {
        TilesDisjoint(blocks, i, j, FIRST_MCB, END_SEGMENT);
      }
    }
  }

  /** A segment live before and after an operation keeps the bytes of its common prefix:
      everything, unless it was shrunk. */
  lemma LiveBytesKept(s: seq<Byte>, t: seq<Byte>, after: seq<Block>, segment: nat, offset: nat)
    requires Arena(after) && OnlyHeaders(s, t, after) && |s| >= ARENA_BYTES
    requires segment in Live(after) && offset < Live(after)[segment].1 * 16
    ensures segment * 16 + offset < |s|
    ensures t[segment * 16 + offset] == s[segment * 16 + offset]
  {
    LiveMember(after, segment);
    var b :| b in after && b.mcb + 1 == segment && !b.Free();
    var i :| 0 <= i < |after| && after[i] == b;
    LiveAt(after, i, FIRST_MCB, END_SEGMENT);
    SegmentRange(after, i);
    DataUntouched(s, t, after, i, segment * 16 + offset);
  }

  // ----- the services

  // What a chain reads as behind some blocks already read.
  function After(blocks: seq<Block>, rest: Result<seq<Block>, DosError>): Result<seq<Block>, DosError> {
    match rest
    case Ok(more) => Ok(blocks + more)
    case Err(error) => Err(error)
  }

  lemma AfterNothing(rest: Result<seq<Block>, DosError>)
    ensures After([], rest) == rest
  {
    if rest.Ok? { assert [] + rest.value == rest.value; }
  }

  lemma AfterOneMore(blocks: seq<Block>, block: Block, rest: Result<seq<Block>, DosError>)
    ensures After(blocks, After([block], rest)) == After(blocks + [block], rest)
  {
    if rest.Ok? { assert blocks + ([block] + rest.value) == blocks + [block] + rest.value; }
  }

  method ReadChain(memory: array<Byte>) returns (result: Result<seq<Block>, DosError>)
    requires memory.Length >= ARENA_BYTES
    ensures result == Chain(memory[..], FIRST_MCB)
  {
    var blocks: seq<Block> := [];
    var mcb := FIRST_MCB;
    AfterNothing(Chain(memory[..], mcb));
    while true
      invariant mcb < END_SEGMENT
      invariant Chain(memory[..], FIRST_MCB) == After(blocks, Chain(memory[..], mcb))
      decreases END_SEGMENT - mcb
    {
      var a := mcb * 16;
      var marker := memory[a];
      var block := Block(mcb, LittleEndian(memory[a + 1], memory[a + 2]),
                         LittleEndian(memory[a + 3], memory[a + 4]));
      assert block == BlockAt(memory[..], mcb);
      var next := block.Next();
      var last := marker == LAST;
      if (marker != MORE && marker != LAST) || next > END_SEGMENT || last != (next == END_SEGMENT) {
        return Err(MemoryCorrupted);
      }
      ghost var before := blocks;
      blocks := blocks + [block];
      if last {
        return Ok(blocks);
      }
      AfterOneMore(before, block, Chain(memory[..], next));
      mcb := next;
    }
  }

  method WriteChain(memory: array<Byte>, blocks: seq<Block>)
    requires memory.Length >= ARENA_BYTES && Arena(blocks)
    modifies memory
    ensures Chain(memory[..], FIRST_MCB) == Ok(blocks)
    ensures OnlyHeaders(old(memory[..]), memory[..], blocks)
  {
    WriteThenRead(memory[..], blocks);
    WrittenOnlyHeaders(memory[..], blocks);
    for index := 0 to |blocks|
      invariant Written(memory[..], blocks[index..]) == Written(old(memory[..]), blocks)
    {
      var block := blocks[index];
      assert block in blocks;
      assert blocks[index..][1..] == blocks[index + 1..];
      ghost var s := memory[..];
      WriteHeader(memory, block, index + 1 == |blocks|);
      assert Encodable(blocks[index..]);
    }
  }

  method WriteHeader(memory: array<Byte>, block: Block, last: bool)
    requires memory.Length >= ARENA_BYTES && block.Next() <= END_SEGMENT
    modifies memory
    ensures memory[..] == Patch(old(memory[..]), block, last)
  {
    var a := Address(block);
    memory[a] := if last then LAST else MORE;
    memory[a + 1], memory[a + 2] := Low(block.owner), High(block.owner);
    memory[a + 3], memory[a + 4] := Low(block.paragraphs), High(block.paragraphs);
  }

  const WHOLE_ARENA := [Block(FIRST_MCB, 0, AVAILABLE)]

  lemma WholeArena()
    ensures Arena(WHOLE_ARENA) && Coalesced(WHOLE_ARENA) && Live(WHOLE_ARENA) == map[]
  {
    assert WHOLE_ARENA[1..] == [];
  }

  method Reset(memory: array<Byte>)
    requires memory.Length >= ARENA_BYTES
    modifies memory
    ensures Chain(memory[..], FIRST_MCB) == Ok(WHOLE_ARENA)
    ensures OnlyHeaders(old(memory[..]), memory[..], WHOLE_ARENA)
  {
    WholeArena();
    WriteChain(memory, WHOLE_ARENA);
  }

  /** First fit over the coalesced chain; a refusal leaves every byte as it was. */
  method Allocate(memory: array<Byte>, paragraphs: Word, owner: Word) returns (result: Result<nat, DosError>)
    requires memory.Length >= ARENA_BYTES
    modifies memory
    ensures match Chain(old(memory[..]), FIRST_MCB)
            case Err(error) => result == Err(error) && memory[..] == old(memory[..])
            case Ok(blocks) =>
              match AllocateIn(Coalesce(blocks), paragraphs, owner)
              case Err(error) => result == Err(error) && memory[..] == old(memory[..])
              case Ok((after, segment)) =>
                && result == Ok(segment) && Chain(memory[..], FIRST_MCB) == Ok(after)
                && OnlyHeaders(old(memory[..]), memory[..], after)
  {
    var read := ReadChain(memory);
    if read.Err? {
      return Err(read.error);
    }
    ChainIffStored(memory[..], FIRST_MCB, read.value);
    CoalesceSound(read.value, FIRST_MCB, END_SEGMENT);
    var blocks := CoalesceInPlace(read.value);
    var index := FirstFit(blocks, paragraphs);
    if index.None? {
      return Err(InsufficientMemory(LargestFree(blocks)));
    }
    var i := index.value;
    AllocateSound(blocks, paragraphs, owner);
    hide Split, Live, Tiles, Coalesce, LargestFree, Chain, Stored, OnlyHeaders;
    var taken := blocks[..i] + Split(blocks[i].(owner := owner), paragraphs) + blocks[i + 1..];
    var segment := blocks[i].mcb + 1;
    WriteChain(memory, taken);
    return Ok(segment);
  }

  method Free(memory: array<Byte>, segment: Word) returns (error: Option<DosError>)
    requires memory.Length >= ARENA_BYTES
    modifies memory
    ensures match Chain(old(memory[..]), FIRST_MCB)
            case Err(e) => error == Some(e) && memory[..] == old(memory[..])
            case Ok(blocks) =>
              match FreeIn(blocks, segment)
              case Err(e) => error == Some(e) && memory[..] == old(memory[..])
              case Ok(after) =>
                && error == None && Chain(memory[..], FIRST_MCB) == Ok(after)
                && OnlyHeaders(old(memory[..]), memory[..], after)
  {
    var read := ReadChain(memory);
    if read.Err? {
      return Some(read.error);
    }
    var blocks := read.value;
    ChainIffStored(memory[..], FIRST_MCB, blocks);
    FreeSound(blocks, segment);
    var index := AllocatedBlock(blocks, segment);
    if index.None? {
      return Some(InvalidMemoryBlock);
    }
    var freed := CoalesceInPlace(blocks[index.value := blocks[index.value].(owner := 0)]);
    WriteChain(memory, freed);
    return None;
  }

  method Resize(memory: array<Byte>, segment: Word, paragraphs: Word) returns (error: Option<DosError>)
    requires memory.Length >= ARENA_BYTES
    modifies memory
    ensures match Chain(old(memory[..]), FIRST_MCB)
            case Err(e) => error == Some(e) && memory[..] == old(memory[..])
            case Ok(blocks) =>
              match ResizeIn(Coalesce(blocks), segment, paragraphs)
              case Err(e) => error == Some(e) && memory[..] == old(memory[..])
              case Ok((after, refused)) =>
                && error == refused && Chain(memory[..], FIRST_MCB) == Ok(after)
                && OnlyHeaders(old(memory[..]), memory[..], after)
  {
    var read := ReadChain(memory);
    if read.Err? {
      return Some(read.error);
    }
    ChainIffStored(memory[..], FIRST_MCB, read.value);
    CoalesceSound(read.value, FIRST_MCB, END_SEGMENT);
    var blocks := CoalesceInPlace(read.value);
    ResizeSound(blocks, segment, paragraphs);
    var index := AllocatedBlock(blocks, segment);
    if index.None? {
      return Some(InvalidMemoryBlock);
    }
    var i := index.value;
    GrownAt(blocks, i);
    var grown := if paragraphs > blocks[i].paragraphs then Absorb(blocks, i) else blocks;
    // What was absorbed stays, whether or not it is enough.
    error := None;
    if paragraphs > grown[i].paragraphs {
      error := Some(InsufficientMemory(grown[i].paragraphs));
    } else {
      grown := grown[..i] + Split(grown[i], paragraphs) + grown[i + 1..];
    }
    grown := CoalesceInPlace(grown);
    WriteChain(memory, grown);
  }

  // ----- whole runs

  datatype Request =
    | AllocateRequest(paragraphs: Word, owner: Word)
    | FreeRequest(segment: Word)
    | ResizeRequest(segment: Word, size: Word)

  // The block list after a service, as the methods above leave it in memory.
  function Served(blocks: seq<Block>, request: Request): seq<Block> {
    match request
    case AllocateRequest(paragraphs, owner) =>
      (match AllocateIn(Coalesce(blocks), paragraphs, owner) case Ok((after, _)) => after case Err(_) => blocks)
    case FreeRequest(segment) =>
      (match FreeIn(blocks, segment) case Ok(after) => after case Err(_) => blocks)
    case ResizeRequest(segment, size) =>
      (match ResizeIn(Coalesce(blocks), segment, size) case Ok((after, _)) => after case Err(_) => blocks)
  }

  ghost function ServedAll(blocks: seq<Block>, requests: seq<Request>): seq<Block>
    decreases |requests|
  {
    if requests == [] then blocks else ServedAll(Served(blocks, requests[0]), requests[1..])
  }

  // Whether a service leaves no two free blocks side by side, judged before it.
  ghost predicate LeavesCoalesced(blocks: seq<Block>, request: Request) {
    match request
    case AllocateRequest(paragraphs, owner) =>
      if FirstFit(Coalesce(blocks), paragraphs).None? then Coalesced(blocks)
      else owner != 0 || ExactFit(Coalesce(blocks), paragraphs)
    case FreeRequest(segment) => segment in Live(blocks) || Coalesced(blocks)
    case ResizeRequest(segment, _) => segment in Live(blocks) || Coalesced(blocks)
  }

  /** Every service keeps the tiling, and tells exactly when it leaves free neighbours. */
  lemma ServedSound(blocks: seq<Block>, request: Request)
    requires Arena(blocks)
    ensures Arena(Served(blocks, request))
    ensures Coalesced(Served(blocks, request)) <==> LeavesCoalesced(blocks, request)
  {
    CoalesceSound(blocks, FIRST_MCB, END_SEGMENT);
    match request
    case AllocateRequest(paragraphs, owner) => AllocateSound(Coalesce(blocks), paragraphs, owner);
    case FreeRequest(segment) => FreeSound(blocks, segment);
    case ResizeRequest(segment, size) => ResizeSound(Coalesce(blocks), segment, size);
  }

  /** Whatever programs allocate, free and resize after a reset, for any owners, the headers tile the
      arena; while no allocation names owner zero, no two free blocks are ever adjacent. */
  lemma {:induction false} RunsStayTiled(blocks: seq<Block>, requests: seq<Request>)
    requires Arena(blocks)
    ensures Arena(ServedAll(blocks, requests))
    ensures Coalesced(blocks) && (forall r <- requests :: r.AllocateRequest? ==> r.owner != 0) ==>
              Coalesced(ServedAll(blocks, requests))
    decreases |requests|
  {
    if requests != [] {
      assert requests[0] in requests;
      ServedSound(blocks, requests[0]);
      RunsStayTiled(Served(blocks, requests[0]), requests[1..]);
    }
  }

  /** An allocation for owner zero after a reset: two free blocks side by side, until the next one
      that merges them. */
  lemma OwnerZeroLeavesNeighbours()
    ensures Arena(WHOLE_ARENA) && Coalesced(WHOLE_ARENA)
    ensures !Coalesced(Served(WHOLE_ARENA, AllocateRequest(4, 0)))
  {
    WholeArena();
    CoalesceIdle(WHOLE_ARENA);
    ServedSound(WHOLE_ARENA, AllocateRequest(4, 0));
    assert FirstFit(WHOLE_ARENA, 4) == Some(0);
  }

  /** What the guest sees of a chain: per block 'M', or 'Z' on the last, the owner and the size, low byte first. */
  lemma {:induction false} HeaderBytes(s: seq<Byte>, mcb: nat, blocks: seq<Block>, i: nat)
    requires mcb < END_SEGMENT && |s| >= ARENA_BYTES && Chain(s, mcb) == Ok(blocks) && i < |blocks|
    ensures var a := 16 * blocks[i].mcb;
            && a + 5 <= |s| && s[a] == (if i == |blocks| - 1 then 0x5a else 0x4d)
            && (s[a + 1] as int) + 0x100 * (s[a + 2] as int) == blocks[i].owner
            && (s[a + 3] as int) + 0x100 * (s[a + 4] as int) == blocks[i].paragraphs
    decreases END_SEGMENT - mcb
  {
    if i > 0 {
      var next := BlockAt(s, mcb).Next();
      assert blocks[1..] == Chain(s, next).value;
      HeaderBytes(s, next, blocks[1..], i - 1);
    }
  }

  /** Into an arena just reset, the first process is loaded at the first segment, whatever it asks for that fits. */
  lemma FirstProcess(paragraphs: nat, owner: Word)
    requires paragraphs <= AVAILABLE
    ensures Coalesce(WHOLE_ARENA) == WHOLE_ARENA
    ensures match AllocateIn(WHOLE_ARENA, paragraphs, owner)
            case Ok((_, segment)) => segment == 0x1000
            case Err(_) => false
  {
    WholeArena();
    CoalesceIdle(WHOLE_ARENA);
    assert Fits(WHOLE_ARENA[0], paragraphs) && WHOLE_ARENA[0] in WHOLE_ARENA;
    assert FirstFit(WHOLE_ARENA, paragraphs) == Some(0);
  }
}
