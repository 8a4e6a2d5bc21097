/** Display captures of crates/vga: one worker publishes, another takes and uploads, and page hints
    accumulated in between must never lose a write. Blocks are shared by identity and copied on write. */
module Captures {
  import opened Wrappers
  import opened Machine

  const BLOCKS := 64
  const BLOCK_BYTES := 65536
  const PAGE_BYTES := 1024

  // The identity of a shared block allocation.
  type Id = nat

  type Bytes = seq<Byte>

  datatype Page = Page(block: nat, index: nat)

  /** A prefix of physical memory held by identity, and what all of memory contained at that moment. */
  datatype Snapshot = Snapshot(blocks: seq<Id>, image: seq<Bytes>)

  // Where memory may differ from an earlier snapshot.
  datatype Changes = Changes(baseline: Snapshot, pages: set<Page>)

  datatype Capture = Capture(memory: Snapshot, changes: Option<Changes>, inputs: int)

  // What the producing worker is doing; guest writes happen only when it is idle.
  datatype Phase = Idle | Drawn(frame: Capture) | Committed(frame: Capture)

  datatype System = System(
    heap: map<Id, Bytes>,
    blocks: seq<Id>,
    changed: set<Page>,
    phase: Phase,
    stored: Option<Capture>,
    held: set<Capture>,
    gpu: seq<Bytes>,
    previous: Option<Snapshot>)

  function Image(heap: map<Id, Bytes>, blocks: seq<Id>): seq<Bytes>
    requires forall id <- blocks :: id in heap
  {
    seq(|blocks|, (i: nat) requires i < |blocks| && blocks[i] in heap => heap[blocks[i]])
  }

  function Poke(bytes: Bytes, o: nat, value: Byte): Bytes
    requires o < |bytes|
  {
    bytes[o := value]
  }

  // ----- what may be referenced

  function SnapshotIds(s: Snapshot): set<Id> { set id | id in s.blocks }

  function CaptureIds(c: Capture): set<Id> {
    SnapshotIds(c.memory) + if c.changes.Some? then SnapshotIds(c.changes.value.baseline) else {}
  }

  ghost predicate Referenced(s: System, id: Id) {
    || (s.stored.Some? && id in CaptureIds(s.stored.value))
    || (!s.phase.Idle? && id in CaptureIds(s.phase.frame))
    || (exists c <- s.held :: id in CaptureIds(c))
    || (s.previous.Some? && id in SnapshotIds(s.previous.value))
  }

  // ----- the invariant

  ghost predicate FullImage(image: seq<Bytes>) {
    |image| == BLOCKS && forall i | 0 <= i < BLOCKS :: |image[i]| == BLOCK_BYTES
  }

  /** Held blocks still contain what they contained when the snapshot was taken. */
  ghost predicate Grounded(heap: map<Id, Bytes>, s: Snapshot) {
    && FullImage(s.image) && |s.blocks| <= BLOCKS
    && forall i | 0 <= i < |s.blocks| :: s.blocks[i] in heap && heap[s.blocks[i]] == s.image[i]
  }

  /** Two images agree outside some pages. */
  ghost predicate AgreeOutside(a: seq<Bytes>, b: seq<Bytes>, pages: set<Page>)
    requires FullImage(a) && FullImage(b)
  {
    forall i, o | 0 <= i < BLOCKS && 0 <= o < BLOCK_BYTES && a[i][o] != b[i][o] :: Page(i, o / PAGE_BYTES) in pages
  }

  /** A capture differs from its baseline only inside its recorded pages. */
  ghost predicate Truthful(heap: map<Id, Bytes>, c: Capture) {
    && Grounded(heap, c.memory)
    && (c.changes.Some? ==>
          && Grounded(heap, c.changes.value.baseline)
          && AgreeOutside(c.memory.image, c.changes.value.baseline.image, c.changes.value.pages))
  }

  // The live memory of the device.
  ghost predicate Storage(s: System) {
    && |s.blocks| == BLOCKS
    && (forall i | 0 <= i < BLOCKS :: s.blocks[i] in s.heap && |s.heap[s.blocks[i]]| == BLOCK_BYTES)
  }

  ghost function Memory(s: System): (image: seq<Bytes>)
    requires Storage(s)
    ensures FullImage(image)
  {
    Image(s.heap, s.blocks)
  }

  // A frame under construction: newer than the stored capture by exactly its own pages.
  ghost predicate Follows(s: System, frame: Capture)
    requires Storage(s)
  {
    && Truthful(s.heap, frame) && frame.memory.image == Memory(s)
    && (s.stored.Some? ==>
          && frame.changes.Some? && FullImage(s.stored.value.memory.image)
          && AgreeOutside(frame.memory.image, s.stored.value.memory.image, frame.changes.value.pages))
    && (s.stored.None? ==> frame.changes.None?)
  }

  ghost predicate Inv(s: System) {
    && Storage(s)
    && (s.stored.Some? ==> Truthful(s.heap, s.stored.value))
    && (forall c <- s.held :: Truthful(s.heap, c))
    && |s.gpu| == BLOCKS && FullImage(s.gpu)
    && (s.previous.Some? ==> Grounded(s.heap, s.previous.value) && Uploaded(s.gpu, s.previous.value))
    && match s.phase
       case Idle => s.stored.Some? ==> AgreeOutside(Memory(s), s.stored.value.memory.image, s.changed)
       case Drawn(frame) =>
         && Follows(s, frame)
         && (s.stored.Some? ==> AgreeOutside(Memory(s), s.stored.value.memory.image, s.changed))
       case Committed(frame) => Follows(s, frame) && s.changed == {}
  }

  // The GPU buffer holds a whole snapshot.
  ghost predicate Uploaded(gpu: seq<Bytes>, s: Snapshot) {
    |gpu| == BLOCKS && |s.blocks| <= |s.image| && |s.blocks| <= BLOCKS
    && forall i | 0 <= i < |s.blocks| :: gpu[i] == s.image[i]
  }

  // ----- uploads

  // A block of the buffer with the dirty pages of a newer version copied over it.
  function PatchPages(before: Bytes, after: Bytes, block: nat, pages: set<Page>): Bytes
    requires |before| == |after|
  {
    seq(|before|, (o: nat) requires o < |before| && |before| == |after| =>
      if Page(block, o / PAGE_BYTES) in pages then after[o] else before[o])
  }

  // One block: nothing to do, its dirty pages, or all of it.
  function UploadBlock(heap: map<Id, Bytes>, current: Bytes, previous: Option<Snapshot>, c: Capture, i: nat): Bytes
    requires i < |c.memory.blocks| && c.memory.blocks[i] in heap && |heap[c.memory.blocks[i]]| == |current|
  {
    var id := c.memory.blocks[i];
    if previous.None? || i >= |previous.value.blocks| then heap[id]
    else if previous.value.blocks[i] == id then current
    else if c.changes.Some? && i < |c.changes.value.baseline.blocks|
            && c.changes.value.baseline.blocks[i] == previous.value.blocks[i] then
      PatchPages(current, heap[id], i, c.changes.value.pages)
    else heap[id]
  }

  ghost function UploadAll(heap: map<Id, Bytes>, gpu: seq<Bytes>, previous: Option<Snapshot>, c: Capture): seq<Bytes>
    requires Grounded(heap, c.memory) && FullImage(gpu)
  {
    seq(BLOCKS, (i: nat) requires i < BLOCKS =>
      if i < |c.memory.blocks| then UploadBlock(heap, gpu[i], previous, c, i) else gpu[i])
  }

  lemma UploadBlockExact(heap: map<Id, Bytes>, gpu: seq<Bytes>, previous: Option<Snapshot>, c: Capture, i: nat)
    requires Truthful(heap, c) && FullImage(gpu) && i < |c.memory.blocks|
    requires previous.Some? ==> Grounded(heap, previous.value) && Uploaded(gpu, previous.value)
    ensures UploadBlock(heap, gpu[i], previous, c, i) == c.memory.image[i]
  {
    var id := c.memory.blocks[i];
    if previous.Some? && i < |previous.value.blocks| && previous.value.blocks[i] != id
       && c.changes.Some? && i < |c.changes.value.baseline.blocks|
       && c.changes.value.baseline.blocks[i] == previous.value.blocks[i] {
      var patched := PatchPages(gpu[i], heap[id], i, c.changes.value.pages);
      assert gpu[i] == c.changes.value.baseline.image[i];
      forall o | 0 <= o < BLOCK_BYTES ensures patched[o] == c.memory.image[i][o] {}
    }
  }

  /** Uploading any live capture leaves its whole memory in the buffer, whatever was uploaded before:
      the hints are trusted only for a block whose baseline is what the buffer holds. */
  lemma UploadExact(s: System, c: Capture)
    requires Inv(s) && c in s.held
    ensures FullImage(UploadAll(s.heap, s.gpu, s.previous, c))
    ensures Uploaded(UploadAll(s.heap, s.gpu, s.previous, c), c.memory)
    ensures forall i | 0 <= i < |c.memory.blocks| :: c.memory.image[i] == s.heap[c.memory.blocks[i]]
  {
    var after := UploadAll(s.heap, s.gpu, s.previous, c);
    forall i | 0 <= i < BLOCKS
      ensures |after[i]| == BLOCK_BYTES && (i < |c.memory.blocks| ==> after[i] == c.memory.image[i])
    {
      if i < |c.memory.blocks| { UploadBlockExact(s.heap, s.gpu, s.previous, c, i); }
    }
  }

  method WriteBlocks(
      heap: map<Id, Bytes>, gpu: seq<Bytes>, previous: Option<Snapshot>, c: Capture)
    returns (after: seq<Bytes>)
    requires Grounded(heap, c.memory) && FullImage(gpu)
    ensures after == UploadAll(heap, gpu, previous, c)
  {
    after := gpu;
    for block := 0 to |c.memory.blocks|
      invariant FullImage(gpu) && |after| == BLOCKS
      invariant forall i | 0 <= i < BLOCKS ::
                  after[i] == if i < block then UploadBlock(heap, gpu[i], previous, c, i) else gpu[i]
    {
      var id := c.memory.blocks[block];
      var held :=
        if previous.Some? && block < |previous.value.blocks| then Some(previous.value.blocks[block]) else None;
      if held == Some(id) {
        continue;
      }
      if held.Some? && c.changes.Some? && block < |c.changes.value.baseline.blocks|
         && c.changes.value.baseline.blocks[block] == held.value {
        after := after[block := PatchPages(gpu[block], heap[id], block, c.changes.value.pages)];
      } else {
        after := after[block := heap[id]];
      }
    }
  }

  // ----- steps

  datatype Event =
    | GuestWrite(block: nat, offset: nat, value: Byte, copy: Option<Id>)
    | ClearMemory(id: Id)
    | Draw(count: nat, inputs: int)      // a retrace samples the display inputs
    | Unchanged                          // the sample equals the stored capture
    | Commit                             // pages written from here on belong to the next one
    | Publish                            // the new capture replaces the stored one
    | Take                               // the renderer takes the stored capture
    | Read                               // anyone else retains it
    | Peek(count: nat, inputs: int)      // an immediate snapshot
    | Release(capture: Capture)
    | Upload(capture: Capture)

  // The owner of a block must copy it first if anyone else can see it.
  ghost predicate SharedBlock(s: System, b: nat)
    requires b < |s.blocks|
  {
    Referenced(s, s.blocks[b]) || exists j | 0 <= j < |s.blocks| :: j != b && s.blocks[j] == s.blocks[b]
  }

  predicate SameInputs(a: Capture, b: Capture) {
    a.inputs == b.inputs && a.memory.blocks == b.memory.blocks
  }

  ghost predicate Possible(s: System, e: Event) {
    match e
    case GuestWrite(b, o, _, copy) =>
      && s.phase.Idle? && b < |s.blocks| && o < BLOCK_BYTES
      && (copy.None? ==> !SharedBlock(s, b))
      && (copy.Some? ==> !Referenced(s, copy.value) && copy.value !in s.blocks)
    case ClearMemory(id) => s.phase.Idle? && !Referenced(s, id)
    case Draw(count, _) => s.phase.Idle? && count <= BLOCKS
    case Unchanged => s.phase.Drawn? && s.stored.Some? && SameInputs(s.phase.frame, s.stored.value)
    case Commit => s.phase.Drawn? && !(s.stored.Some? && SameInputs(s.phase.frame, s.stored.value))
    case Publish => s.phase.Committed?
    case Take => s.stored.Some?
    case Read => s.stored.Some?
    case Peek(count, _) => s.phase.Idle? && count <= BLOCKS
    case Release(_) => true
    case Upload(c) => c in s.held
  }

  function Sampled(s: System, count: nat, inputs: int): Capture
    requires (forall id <- s.blocks :: id in s.heap) && count <= |s.blocks|
  {
    Capture(Snapshot(s.blocks[..count], Image(s.heap, s.blocks)),
            if s.stored.None? then None else Some(Changes(s.stored.value.memory, s.changed)),
            inputs)
  }

  // Later changes accumulate onto those that have not been taken yet.
  function Merged(stored: Option<Capture>, frame: Capture): Capture
    requires stored.Some? && stored.value.changes.Some? ==> frame.changes.Some?
  {
    if stored.Some? && stored.value.changes.Some? then
      var pending := stored.value.changes.value;
      frame.(changes := Some(Changes(pending.baseline, frame.changes.value.pages + pending.pages)))
    else frame
  }

  // Taking keeps the capture readable and consumes only its hints.
  function Retained(c: Capture): Capture {
    c.(changes := Some(Changes(c.memory, {})))
  }

  ghost function AllPages(): set<Page> {
    set b, p | 0 <= b < BLOCKS && 0 <= p < BLOCK_BYTES / PAGE_BYTES :: Page(b, p)
  }

  ghost function Next(s: System, e: Event): System
    requires Inv(s) && Possible(s, e)
  {
    match e
    case GuestWrite(b, o, value, copy) =>
      var id := if copy.Some? then copy.value else s.blocks[b];
      if s.heap[s.blocks[b]][o] == value then s
      else s.(heap := s.heap[id := Poke(s.heap[s.blocks[b]], o, value)], blocks := s.blocks[b := id],
              changed := s.changed + {Page(b, o / PAGE_BYTES)})
    case ClearMemory(id) =>
      s.(heap := s.heap[id := seq(BLOCK_BYTES, _ => 0)], blocks := seq(BLOCKS, _ => id), changed := AllPages())
    case Draw(count, inputs) => s.(phase := Drawn(Sampled(s, count, inputs)))
    case Unchanged => s.(phase := Idle)
    case Commit => s.(phase := Committed(s.phase.frame), changed := {})
    case Publish => s.(phase := Idle, stored := Some(Merged(s.stored, s.phase.frame)))
    case Take => s.(stored := Some(Retained(s.stored.value)), held := s.held + {s.stored.value})
    case Read => s.(held := s.held + {s.stored.value})
    case Peek(count, inputs) => s.(held := s.held + {Sampled(s, count, inputs)})
    case Release(c) => s.(held := s.held - {c})
    case Upload(c) => s.(gpu := UploadAll(s.heap, s.gpu, s.previous, c), previous := Some(c.memory))
  }

  /** What an event does to the hints and to the captures: a write marks the page of the byte it changes, a drawn
      capture holds the blocks asked for as they are and the pages marked so far, publication starts marking
      afresh and merges pages into those not yet taken, and the newest memory and inputs are what is stored. */
  lemma HintsFollow(s: System, e: Event)
    requires Inv(s) && Possible(s, e)
    ensures var t := Next(s, e);
            match e
            case GuestWrite(b, o, value, _) =>
              && t.stored == s.stored && t.phase == s.phase
              && t.changed == if s.heap[s.blocks[b]][o] == value then s.changed else s.changed + {Page(b, o / 1024)}
            case ClearMemory(_) =>
              t.stored == s.stored && forall b, p | 0 <= b < 64 && 0 <= p < 64 :: Page(b, p) in t.changed
            case Draw(count, inputs) =>
              && t.phase.Drawn? && t.stored == s.stored && t.changed == s.changed
              && var frame := t.phase.frame;
              && frame.memory.blocks == s.blocks[..count] && frame.memory.image == Memory(s) && frame.inputs == inputs
              && frame.changes == (if s.stored.None? then None else Some(Changes(s.stored.value.memory, s.changed)))
            case Unchanged => t == s.(phase := Idle)
            case Commit => t == s.(phase := Committed(s.phase.frame), changed := {})
            case Publish =>
              && t.phase.Idle? && t.changed == s.changed && t.stored.Some?
              && t.stored.value.memory == s.phase.frame.memory && t.stored.value.inputs == s.phase.frame.inputs
              && t.stored.value.changes ==
                 (if s.stored.Some? && s.stored.value.changes.Some? then
                    Some(Changes(s.stored.value.changes.value.baseline,
                                 s.phase.frame.changes.value.pages + s.stored.value.changes.value.pages))
                  else s.phase.frame.changes)
            case Take =>
              && s.stored.value in t.held && t.changed == s.changed && t.phase == s.phase && t.stored.Some?
              && t.stored.value.memory == s.stored.value.memory && t.stored.value.inputs == s.stored.value.inputs
              && t.stored.value.changes == Some(Changes(s.stored.value.memory, {}))
            case _ => t.stored == s.stored && t.changed == s.changed && t.phase == s.phase && t.blocks == s.blocks
  {}

  // ----- which blocks hold a prefix of memory

  // Successive bytes go to the four blocks of a group in turn.
  function Location(address: nat): (nat, nat) {
    (address / (4 * BLOCK_BYTES) * 4 + address % 4, address / 4 % BLOCK_BYTES)
  }

  /** Every address has its own place in the blocks, and every place an address. */
  lemma LocationExact(address: nat, block: nat, offset: nat)
    requires offset < BLOCK_BYTES
    ensures Location(address) == (block, offset) <==>
              address == block / 4 * (4 * BLOCK_BYTES) + 4 * offset + block % 4
  {
    LocationParts(address);
    GroupParts(address / (4 * BLOCK_BYTES), address % 4);
    GroupParts(block / 4, block % 4);
    if address == block / 4 * (4 * BLOCK_BYTES) + 4 * offset + block % 4 {
      PlaceParts(block / 4, offset, block % 4);
    }
  }

  lemma LocationParts(address: nat)
    ensures address == address / (4 * BLOCK_BYTES) * (4 * BLOCK_BYTES) + 4 * (address / 4 % BLOCK_BYTES) + address % 4
  {
    assert address / (4 * BLOCK_BYTES) == address / 4 / BLOCK_BYTES;
  }

  lemma GroupParts(group: nat, plane: nat)
    requires plane < 4
    ensures (group * 4 + plane) / 4 == group && (group * 4 + plane) % 4 == plane
  {}

  lemma PlaceParts(group: nat, offset: nat, plane: nat)
    requires offset < BLOCK_BYTES && plane < 4
    ensures var address := group * (4 * BLOCK_BYTES) + 4 * offset + plane;
            && address / (4 * BLOCK_BYTES) == group && address % 4 == plane && address / 4 % BLOCK_BYTES == offset
  {
    assert (group * (4 * BLOCK_BYTES) + 4 * offset + plane) / 4 == group * BLOCK_BYTES + offset;
  }

  // The whole groups that a snapshot of some bytes takes.
  function SnapshotBlocks(bytes: nat): nat {
    (bytes + 4 * BLOCK_BYTES - 1) / (4 * BLOCK_BYTES) * 4
  }

  /** A snapshot's blocks hold every byte asked for, and with one group less would not. */
  lemma SnapshotCovers(bytes: nat, address: nat)
    ensures address < bytes ==> Location(address).0 < SnapshotBlocks(bytes)
    ensures bytes > 0 ==> SnapshotBlocks(bytes) - 4 <= Location(bytes - 1).0
  {}

  lemma AgreeTransitive(a: seq<Bytes>, b: seq<Bytes>, c: seq<Bytes>, p: set<Page>, q: set<Page>)
    requires FullImage(a) && FullImage(b) && FullImage(c) && AgreeOutside(a, b, p) && AgreeOutside(b, c, q)
    ensures AgreeOutside(a, c, p + q)
  {
    forall i, o | 0 <= i < BLOCKS && 0 <= o < BLOCK_BYTES && a[i][o] != c[i][o]
      ensures Page(i, o / PAGE_BYTES) in p + q
    {
      assert a[i][o] != b[i][o] || b[i][o] != c[i][o];
    }
  }

  // A heap that changes no referenced block keeps every capture as it was.
  ghost predicate Preserves(s: System, heap: map<Id, Bytes>) {
    forall id | id in s.heap && Referenced(s, id) :: id in heap && heap[id] == s.heap[id]
  }

  lemma CapturesStay(s: System, heap: map<Id, Bytes>)
    requires Inv(s) && s.phase.Idle? && Preserves(s, heap)
    ensures s.stored.Some? ==> Truthful(heap, s.stored.value)
    ensures forall c <- s.held :: Truthful(heap, c)
    ensures s.previous.Some? ==> Grounded(heap, s.previous.value)
  {
    if s.stored.Some? {
      TruthStays(s.heap, heap, s.stored.value);
    }
    forall c | c in s.held ensures Truthful(heap, c) {
      assert forall id <- CaptureIds(c) :: Referenced(s, id);
      TruthStays(s.heap, heap, c);
    }
    if s.previous.Some? {
      GroundStays(s.heap, heap, s.previous.value);
    }
  }

  lemma GroundStays(heap: map<Id, Bytes>, after: map<Id, Bytes>, s: Snapshot)
    requires Grounded(heap, s) && forall id <- SnapshotIds(s) :: id in heap ==> id in after && after[id] == heap[id]
    ensures Grounded(after, s)
  {
    forall i | 0 <= i < |s.blocks| ensures s.blocks[i] in after && after[s.blocks[i]] == s.image[i] {
      assert s.blocks[i] in SnapshotIds(s);
    }
  }

  lemma TruthStays(heap: map<Id, Bytes>, after: map<Id, Bytes>, c: Capture)
    requires Truthful(heap, c) && forall id <- CaptureIds(c) :: id in heap ==> id in after && after[id] == heap[id]
    ensures Truthful(after, c)
  {
    GroundStays(heap, after, c.memory);
    if c.changes.Some? { GroundStays(heap, after, c.changes.value.baseline); }
  }

  // A changed byte is in a page that the write marked.
  lemma WriteStep(s: System, b: nat, o: nat, value: Byte, copy: Option<Id>)
    requires Inv(s) && Possible(s, GuestWrite(b, o, value, copy))
    ensures Inv(Next(s, GuestWrite(b, o, value, copy)))
  {
    var after := Next(s, GuestWrite(b, o, value, copy));
    if after != s {
      CapturesStay(s, after.heap);
      WriteMemory(s, b, o, value, copy);
      if s.stored.Some? {
        WriteAgrees(Memory(s), Memory(after), s.stored.value.memory.image, s.changed, b, o, value);
      }
    }
  }

  lemma WriteMemory(s: System, b: nat, o: nat, value: Byte, copy: Option<Id>)
    requires Inv(s) && Possible(s, GuestWrite(b, o, value, copy)) && s.heap[s.blocks[b]][o] != value
    ensures var after := Next(s, GuestWrite(b, o, value, copy));
            Storage(after) && Memory(after) == Memory(s)[b := Poke(Memory(s)[b], o, value)]
  {
    var after := Next(s, GuestWrite(b, o, value, copy));
    forall i | 0 <= i < BLOCKS
      ensures after.blocks[i] in after.heap
              && after.heap[after.blocks[i]] ==
                 if i == b then Poke(s.heap[s.blocks[b]], o, value) else s.heap[s.blocks[i]]
    {
      if i != b { assert s.blocks[i] in s.blocks; }
    }
  }

  lemma WriteAgrees(
      image: seq<Bytes>, after: seq<Bytes>, stored: seq<Bytes>, changed: set<Page>, b: nat, o: nat, value: Byte)
    requires FullImage(image) && FullImage(after) && FullImage(stored) && b < BLOCKS && o < BLOCK_BYTES
    requires after == image[b := Poke(image[b], o, value)] && AgreeOutside(image, stored, changed)
    ensures AgreeOutside(after, stored, changed + {Page(b, o / PAGE_BYTES)})
  {
    forall i, p | 0 <= i < BLOCKS && 0 <= p < BLOCK_BYTES && after[i][p] != stored[i][p]
      ensures Page(i, p / PAGE_BYTES) in changed + {Page(b, o / PAGE_BYTES)}
    {
      if !(i == b && p == o) { assert image[i][p] == after[i][p]; }
    }
  }

  lemma ClearStep(s: System, id: Id)
    requires Inv(s) && Possible(s, ClearMemory(id))
    ensures Inv(Next(s, ClearMemory(id)))
  {
    var after := Next(s, ClearMemory(id));
    CapturesStay(s, after.heap);
    if s.stored.Some? {
      forall i, o | 0 <= i < BLOCKS && 0 <= o < BLOCK_BYTES ensures Page(i, o / PAGE_BYTES) in AllPages() {}
    }
  }

  lemma SampledTruthful(s: System, count: nat, inputs: int)
    requires Inv(s) && s.phase.Idle? && count <= BLOCKS
    ensures Follows(s, Sampled(s, count, inputs))
  {}

  lemma PublishStep(s: System)
    requires Inv(s) && Possible(s, Publish)
    ensures Inv(Next(s, Publish))
  {
    var frame := s.phase.frame;
    if s.stored.Some? && s.stored.value.changes.Some? {
      var pending := s.stored.value.changes.value;
      AgreeTransitive(frame.memory.image, s.stored.value.memory.image, pending.baseline.image,
                      frame.changes.value.pages, pending.pages);
    }
  }

  /** No interleaving of guest writes, refreshes, publications, takes, reads and uploads breaks it. */
  lemma StepKeepsInv(s: System, e: Event)
    requires Inv(s) && Possible(s, e)
    ensures Inv(Next(s, e))
  {
    match e
    case GuestWrite(b, o, value, copy) => WriteStep(s, b, o, value, copy);
    case ClearMemory(id) => ClearStep(s, id);
    case Draw(count, inputs) => SampledTruthful(s, count, inputs);
    case Peek(count, inputs) => SampledTruthful(s, count, inputs);
    case Publish => PublishStep(s);
    case Upload(c) => UploadExact(s, c);
    case _ =>
  }

  ghost predicate PossibleRun(s: System, events: seq<Event>)
    requires Inv(s)
    decreases |events|
  {
    events != [] ==>
      Possible(s, events[0]) && (StepKeepsInv(s, events[0]); PossibleRun(Next(s, events[0]), events[1..]))
  }

  ghost function Run(s: System, events: seq<Event>): (after: System)
    requires Inv(s) && PossibleRun(s, events)
    ensures Inv(after)
    decreases |events|
  {
    if events == [] then s
    else
      StepKeepsInv(s, events[0]);
      Run(Next(s, events[0]), events[1..])
  }

  // New memory is zero and one zero block serves everywhere.
  ghost function PowerUp(): (s: System)
    ensures Inv(s)
  {
    System(map[0 := seq(BLOCK_BYTES, _ => 0)], seq(BLOCKS, _ => 0), {}, Idle, None, {},
           seq(BLOCKS, _ => seq(BLOCK_BYTES, _ => 0)), None)
  }

  /** After any run from power-up, the stored capture differs from its baseline only inside its pages,
      and every capture that anyone has taken or read uploads exactly. */
  lemma CapturesNeverLoseWrites(events: seq<Event>, c: Capture)
    requires PossibleRun(PowerUp(), events)
    requires c in Run(PowerUp(), events).held
    ensures var s := Run(PowerUp(), events);
            && (s.stored.Some? ==> Truthful(s.heap, s.stored.value))
            && Uploaded(UploadAll(s.heap, s.gpu, s.previous, c), c.memory)
  {
    UploadExact(Run(PowerUp(), events), c);
  }

  // ----- one consumer

  // The capture taken and not yet uploaded.
  ghost function Pending(s: System, taken: Option<Capture>, e: Event): Option<Capture>
    requires Inv(s) && Possible(s, e)
  {
    if e.Take? then s.stored else if e.Upload? then None else taken
  }

  // One consumer uploads every capture it takes before it takes another, and nothing else.
  predicate Disciplined(taken: Option<Capture>, e: Event) {
    (e.Take? ==> taken.None?) && (e.Upload? ==> taken == Some(e.capture))
  }

  // What the GPU holds is the baseline of whatever is uploaded next.
  ghost predicate InStep(s: System, taken: Option<Capture>) {
    match taken
    case None => s.previous.Some? ==> BasedOn(s.stored, s.previous.value)
    case Some(c) => BasedOn(s.stored, c.memory) && (s.previous.Some? ==> BasedOn(taken, s.previous.value))
  }

  ghost predicate BasedOn(c: Option<Capture>, baseline: Snapshot) {
    c.Some? && c.value.changes.Some? && c.value.changes.value.baseline == baseline
  }

  lemma StepKeepsInStep(s: System, taken: Option<Capture>, e: Event)
    requires Inv(s) && Possible(s, e) && Disciplined(taken, e) && InStep(s, taken)
    ensures InStep(Next(s, e), Pending(s, taken, e))
  {}

  ghost predicate DisciplinedRun(s: System, taken: Option<Capture>, events: seq<Event>)
    requires Inv(s) && PossibleRun(s, events)
    decreases |events|
  {
    events != [] ==>
      Disciplined(taken, events[0])
      && (StepKeepsInv(s, events[0]); DisciplinedRun(Next(s, events[0]), Pending(s, taken, events[0]), events[1..]))
  }

  ghost function PendingAfter(s: System, taken: Option<Capture>, events: seq<Event>): Option<Capture>
    requires Inv(s) && PossibleRun(s, events)
    decreases |events|
  {
    if events == [] then taken
    else
      StepKeepsInv(s, events[0]);
      PendingAfter(Next(s, events[0]), Pending(s, taken, events[0]), events[1..])
  }

  lemma {:induction false} RunsStayInStep(s: System, taken: Option<Capture>, events: seq<Event>)
    requires Inv(s) && PossibleRun(s, events) && DisciplinedRun(s, taken, events) && InStep(s, taken)
    ensures InStep(Run(s, events), PendingAfter(s, taken, events))
    decreases |events|
  {
    if events != [] {
      StepKeepsInv(s, events[0]);
      StepKeepsInStep(s, taken, events[0]);
      RunsStayInStep(Next(s, events[0]), Pending(s, taken, events[0]), events[1..]);
    }
  }

  /** Whatever guests, retraces and other readers do, a single consumer never sends a block whole that the
      GPU already holds a version of: it skips it, or sends its changed pages. */
  lemma SingleConsumerSendsPages(events: seq<Event>, c: Capture, i: nat)
    requires PossibleRun(PowerUp(), events) && DisciplinedRun(PowerUp(), None, events)
    requires PendingAfter(PowerUp(), None, events) == Some(c) && c in Run(PowerUp(), events).held
    requires var previous := Run(PowerUp(), events).previous;
             previous.Some? && i < |c.memory.blocks| && i < |previous.value.blocks|
    ensures var s := Run(PowerUp(), events); var id := c.memory.blocks[i];
            && Grounded(s.heap, c.memory) && c.changes.Some?
            && UploadAll(s.heap, s.gpu, s.previous, c)[i] ==
               if s.previous.value.blocks[i] == id then s.gpu[i]
               else PatchPages(s.gpu[i], s.heap[id], i, c.changes.value.pages)
  {
    RunsStayInStep(PowerUp(), None, events);
  }

  // ----- the shared slot

  /** The source that both workers share; each method is one atomic replacement. */
  class FrameSource {
    var frame: Option<Capture>

    constructor ()
      ensures frame == None
    {
      frame := None;
    }

    method Publish(next: Capture)
      requires frame.Some? && frame.value.changes.Some? ==> next.changes.Some?
      modifies this
      ensures frame == Some(Merged(old(frame), next))
    {
      var published := next;
      if frame.Some? && frame.value.changes.Some? {
        var pending := frame.value.changes.value;
        published := published.(changes := Some(published.changes.value.(
          baseline := pending.baseline, pages := published.changes.value.pages + pending.pages)));
      }
      frame := Some(published);
    }

    method TakeCapture() returns (taken: Option<Capture>)
      modifies this
      ensures taken == old(frame)
      ensures frame == if old(frame).Some? then Some(Retained(old(frame).value)) else None
    {
      taken := frame;
      if frame.Some? {
        frame := Some(frame.value.(changes := Some(Changes(frame.value.memory, {}))));
      }
    }
  }
}
