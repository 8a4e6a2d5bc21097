/** The BIOS keyboard buffer of crates/bios: a ring of character and scan-code pairs in guest RAM. */
module KeyboardRing {
  import opened Wrappers
  import opened Machine

  const BDA := 0x400
  const HEAD := BDA + 0x1a
  const TAIL := BDA + 0x1c
  const BREAK_FLAG := BDA + 0x71
  const BREAK_DETECTED: Byte := 0x80
  const BUFFER_START := BDA + 0x80
  const BUFFER_END := BDA + 0x82
  const SEGMENT_BYTES := 0x1_0000
  const DEFAULT_START: Word := 0x1e
  const DEFAULT_END: Word := 0x3e

  const EXTENDED_MARKER: Byte := 0xe0
  const ENHANCED_ONLY_MARKER: Byte := 0xf0
  const LAST_LEGACY_SCAN_CODE: Byte := 0x84

  datatype KeyStroke = KeyStroke(character: Byte, scanCode: Byte)

  datatype KeyMode = Legacy | Enhanced {

    function Translate(key: KeyStroke): Option<KeyStroke> {
      match this
      case Enhanced =>
        Some(if key.character == ENHANCED_ONLY_MARKER && key.scanCode != 0 then key.(character := 0) else key)
      case Legacy =>
        if key.scanCode == EXTENDED_MARKER then
          Some(key.(scanCode := if key.character == 13 || key.character == 10 then 0x1c else 0x35))
        else if key.scanCode > LAST_LEGACY_SCAN_CODE
             || (key.character == ENHANCED_ONLY_MARKER && key.scanCode != 0) then None
        else if key.character == EXTENDED_MARKER && key.scanCode != 0 then Some(key.(character := 0))
        else Some(key)
    }

    // What reading a queue to its end yields.
    function Readable(keys: seq<KeyStroke>): seq<KeyStroke> {
      if keys == [] then []
      else
        match Translate(keys[0])
        case Some(key) => [key] + Readable(keys[1..])
        case None => Readable(keys[1..])
    }

    // Entries from the first one this mode can represent.
    function Visible(keys: seq<KeyStroke>): seq<KeyStroke> {
      if keys == [] || Translate(keys[0]).Some? then keys else Visible(keys[1..])
    }
  }

  /** Skipping what a mode cannot represent loses nothing readable, and leaves a readable key in front. */
  lemma {:induction false} VisibleReads(mode: KeyMode, keys: seq<KeyStroke>)
    ensures var rest := mode.Visible(keys);
      && mode.Readable(rest) == mode.Readable(keys)
      && (rest == [] <==> mode.Readable(keys) == [])
      && (rest != [] ==>
            mode.Translate(rest[0]).Some?
            && mode.Readable(keys) == [mode.Translate(rest[0]).value] + mode.Readable(rest[1..]))
    decreases |keys|
  {
    if keys != [] && mode.Translate(keys[0]).None? { VisibleReads(mode, keys[1..]); }
  }

  /** Enhanced reads drop nothing; legacy reads drop exactly the keys outside the old set. */
  lemma {:induction false} EnhancedReadsAll(keys: seq<KeyStroke>)
    ensures |Enhanced.Readable(keys)| == |keys|
    ensures forall i | 0 <= i < |keys| :: Enhanced.Translate(keys[i]) == Some(Enhanced.Readable(keys)[i])
    decreases |keys|
  {
    if keys != [] { EnhancedReadsAll(keys[1..]); }
  }

  /** What an old program sees: the grey Enter and slash by their plain scan codes, extended keys with a zero
      character, nothing of the keys only newer keyboards have, and every other key as it is. */
  lemma LegacyKeys(character: Byte, scan: Byte)
    ensures Legacy.Translate(KeyStroke(13, 0xe0)) == Some(KeyStroke(13, 0x1c))
    ensures Legacy.Translate(KeyStroke(10, 0xe0)) == Some(KeyStroke(10, 0x1c))
    ensures character != 13 && character != 10 ==>
              Legacy.Translate(KeyStroke(character, 0xe0)) == Some(KeyStroke(character, 0x35))
    ensures 0 < scan <= 0x84 ==> Legacy.Translate(KeyStroke(0xe0, scan)) == Some(KeyStroke(0, scan))
    ensures 0 < scan && scan != 0xe0 ==> Legacy.Translate(KeyStroke(0xf0, scan)) == None
    ensures 0x84 < scan && scan != 0xe0 ==> Legacy.Translate(KeyStroke(character, scan)) == None
    ensures scan <= 0x84 && ((character != 0xe0 && character != 0xf0) || scan == 0) ==>
              Legacy.Translate(KeyStroke(character, scan)) == Some(KeyStroke(character, scan))
  {}

  /** A newer program sees every key, with only the marker of the newest ones turned into a zero character. */
  lemma EnhancedKeys(character: Byte, scan: Byte)
    ensures 0 < scan ==> Enhanced.Translate(KeyStroke(0xf0, scan)) == Some(KeyStroke(0, scan))
    ensures character != 0xf0 || scan == 0 ==>
              Enhanced.Translate(KeyStroke(character, scan)) == Some(KeyStroke(character, scan))
  {}

  // ----- the ring in memory

  function WordAt(s: seq<Byte>, a: nat): Word
    requires a + 2 <= |s|
  {
    LittleEndian(s[a], s[a + 1])
  }

  function PutPair(s: seq<Byte>, a: nat, first: Byte, second: Byte): (r: seq<Byte>)
    requires a + 2 <= |s|
    ensures |r| == |s|
  {
    s[a := first][a + 1 := second]
  }

  // Offsets of the ring within the BIOS data segment, and its entries as slot numbers.
  datatype Ring = Ring(start: nat, slots: nat, head: nat, tail: nat) {

    predicate Valid() { slots >= 1 && head < slots && tail < slots && start + 2 * slots <= SEGMENT_BYTES }

    function Next(slot: nat): nat { if slot + 1 == slots then 0 else slot + 1 }

    function Address(slot: nat): nat { BDA + start + 2 * slot }

    // One slot stays empty to tell a full ring from an empty one.
    function Capacity(): nat
      requires Valid()
    {
      slots - 1
    }

    function Length(): nat
      requires Valid()
    {
      if head <= tail then tail - head else tail + slots - head
    }
  }

  // The four words that describe the ring.
  datatype Words = Words(start: Word, end: Word, head: Word, tail: Word) {

    // Both cursors stand on entries, and the entries are none of the bytes that describe the ring.
    predicate Placed() {
      && start <= head < end && start <= tail < end
      && (end - start) % 2 == 0 && (head - start) % 2 == 0 && (tail - start) % 2 == 0
      && (BDA + end <= HEAD || TAIL + 2 <= BDA + start)
      && (BDA + end <= BREAK_FLAG || BREAK_FLAG < BDA + start)
      && (BDA + end <= BUFFER_START || BUFFER_END + 2 <= BDA + start)
    }

    function AsRing(): (r: Ring)
      requires Placed()
    {
      Ring(start, (end - start) / 2, (head - start) / 2, (tail - start) / 2)
    }

    function Offset(slot: nat): Word
      requires Placed() && slot < AsRing().slots
    {
      start + 2 * slot
    }

    lemma Exact()
      requires Placed()
      ensures AsRing().Valid()
      ensures head == Offset(AsRing().head) && tail == Offset(AsRing().tail) && end == start + 2 * AsRing().slots
    {}

    // Moving past the last entry leads back to the first.
    lemma NextOffset(slot: nat)
      requires Placed() && slot < AsRing().slots
      ensures AsRing().Next(slot) < AsRing().slots
      ensures var next := (Offset(slot) + 2) % TWO_16;
              Offset(AsRing().Next(slot)) == if next == end then start else next
    {}

    lemma HeadAt(slot: nat)
      requires Placed() && slot < AsRing().slots
      ensures var w := this.(head := Offset(slot)); w.Placed() && w.AsRing() == AsRing().(head := slot)
    {}

    lemma TailAt(slot: nat)
      requires Placed() && slot < AsRing().slots
      ensures var w := this.(tail := Offset(slot)); w.Placed() && w.AsRing() == AsRing().(tail := slot)
    {}
  }

  function WordsIn(s: seq<Byte>): Words
    requires |s| >= BDA + SEGMENT_BYTES
  {
    Words(WordAt(s, BUFFER_START), WordAt(s, BUFFER_END), WordAt(s, HEAD), WordAt(s, TAIL))
  }

  predicate Placed(s: seq<Byte>)
    requires |s| >= BDA + SEGMENT_BYTES
  {
    WordsIn(s).Placed()
  }

  function RingIn(s: seq<Byte>): Ring
    requires |s| >= BDA + SEGMENT_BYTES && Placed(s)
  {
    WordsIn(s).AsRing()
  }

  function KeyAt(s: seq<Byte>, a: nat): KeyStroke
    requires a + 2 <= |s|
  {
    KeyStroke(s[a], s[a + 1])
  }

  function Keys(s: seq<Byte>, ring: Ring): seq<KeyStroke>
    requires |s| >= BDA + SEGMENT_BYTES && ring.Valid()
    decreases ring.Length()
  {
    if ring.head == ring.tail then []
    else [KeyAt(s, ring.Address(ring.head))] + Keys(s, ring.(head := ring.Next(ring.head)))
  }

  function Queue(s: seq<Byte>): seq<KeyStroke>
    requires |s| >= BDA + SEGMENT_BYTES && Placed(s)
  {
    Keys(s, RingIn(s))
  }

  lemma {:induction false} KeysLength(s: seq<Byte>, ring: Ring)
    requires |s| >= BDA + SEGMENT_BYTES && ring.Valid()
    ensures |Keys(s, ring)| == ring.Length()
    decreases ring.Length()
  {
    if ring.head != ring.tail { KeysLength(s, ring.(head := ring.Next(ring.head))); }
  }

  lemma {:induction false} KeysFrame(s: seq<Byte>, t: seq<Byte>, ring: Ring)
    requires |s| >= BDA + SEGMENT_BYTES && |t| == |s| && ring.Valid()
    requires forall a | ring.Address(0) <= a < ring.Address(ring.slots) :: t[a] == s[a]
    ensures Keys(t, ring) == Keys(s, ring)
    decreases ring.Length()
  {
    if ring.head != ring.tail { KeysFrame(s, t, ring.(head := ring.Next(ring.head))); }
  }

  /** Storing into the slot at the tail appends, as long as the next slot is not the head. */
  lemma {:induction false} KeysPush(s: seq<Byte>, t: seq<Byte>, ring: Ring, key: KeyStroke)
    requires |s| >= BDA + SEGMENT_BYTES && |t| == |s| && ring.Valid()
    requires ring.Next(ring.tail) != ring.head
    requires forall a | ring.Address(0) <= a < ring.Address(ring.slots) ::
               t[a] == if a == ring.Address(ring.tail) then key.character
                       else if a == ring.Address(ring.tail) + 1 then key.scanCode
                       else s[a]
    ensures Keys(t, ring.(tail := ring.Next(ring.tail))) == Keys(s, ring) + [key]
    decreases ring.Length()
  {
    var grown := ring.(tail := ring.Next(ring.tail));
    if ring.head == ring.tail {
      assert Keys(t, grown.(head := grown.Next(grown.head))) == [];
      assert KeyAt(t, ring.Address(ring.head)) == key;
    } else {
      var after := ring.(head := ring.Next(ring.head));
      KeysPush(s, t, after, key);
      assert KeyAt(t, ring.Address(ring.head)) == KeyAt(s, ring.Address(ring.head));
    }
  }

  // ----- what one write does to the ring

  function PutWord(s: seq<Byte>, a: nat, w: Word): (r: seq<Byte>)
    requires a + 2 <= |s|
    ensures |r| == |s| && WordAt(r, a) == w
  {
    PutPair(s, a, Low(w), High(w))
  }

  lemma PutWordOnly(s: seq<Byte>, a: nat, w: Word)
    requires a + 2 <= |s|
    ensures forall b | 0 <= b < |s| && b != a && b != a + 1 :: PutWord(s, a, w)[b] == s[b]
  {}

  lemma WordsPutHead(s: seq<Byte>, w: Word)
    requires |s| >= BDA + SEGMENT_BYTES
    ensures WordsIn(PutWord(s, HEAD, w)) == WordsIn(s).(head := w)
  {}

  lemma WordsPutTail(s: seq<Byte>, w: Word)
    requires |s| >= BDA + SEGMENT_BYTES
    ensures WordsIn(PutWord(s, TAIL, w)) == WordsIn(s).(tail := w)
  {}

  lemma WordsPutStart(s: seq<Byte>, w: Word)
    requires |s| >= BDA + SEGMENT_BYTES
    ensures WordsIn(PutWord(s, BUFFER_START, w)) == WordsIn(s).(start := w)
  {}

  lemma WordsPutEnd(s: seq<Byte>, w: Word)
    requires |s| >= BDA + SEGMENT_BYTES
    ensures WordsIn(PutWord(s, BUFFER_END, w)) == WordsIn(s).(end := w)
  {}

  // The entries are apart from the bytes that describe the ring.
  lemma EntriesApart(words: Words, a: nat)
    requires words.Placed()
    requires words.AsRing().Address(0) <= a < words.AsRing().Address(words.AsRing().slots)
    ensures a < BDA + SEGMENT_BYTES && a != BREAK_FLAG
    ensures !(HEAD <= a < TAIL + 2) && !(BUFFER_START <= a < BUFFER_END + 2)
  {}

  lemma WordsFrame(s: seq<Byte>, t: seq<Byte>)
    requires |s| >= BDA + SEGMENT_BYTES && |t| == |s|
    requires forall a | HEAD <= a < TAIL + 2 || BUFFER_START <= a < BUFFER_END + 2 :: t[a] == s[a]
    ensures WordsIn(t) == WordsIn(s)
  {
    assert s[HEAD..TAIL + 2] == t[HEAD..TAIL + 2];
  }

  function Offset(s: seq<Byte>, slot: nat): Word
    requires |s| >= BDA + SEGMENT_BYTES && Placed(s) && slot < RingIn(s).slots
  {
    WordsIn(s).Offset(slot)
  }

  lemma RingValid(s: seq<Byte>)
    requires |s| >= BDA + SEGMENT_BYTES && Placed(s)
    ensures RingIn(s).Valid()
    ensures WordAt(s, HEAD) == Offset(s, RingIn(s).head) && WordAt(s, TAIL) == Offset(s, RingIn(s).tail)
    ensures WordAt(s, BUFFER_END) == RingIn(s).start + 2 * RingIn(s).slots
    ensures BDA + WordAt(s, HEAD) == RingIn(s).Address(RingIn(s).head)
    ensures BDA + WordAt(s, TAIL) == RingIn(s).Address(RingIn(s).tail)
    ensures RingIn(s).Address(RingIn(s).tail) + 2 <= |s|
  {
    WordsIn(s).Exact();
  }

  lemma HeadMoves(s: seq<Byte>, slot: nat)
    requires |s| >= BDA + SEGMENT_BYTES && Placed(s) && slot < RingIn(s).slots
    ensures var t := PutWord(s, HEAD, Offset(s, slot));
            && Placed(t) && RingIn(t) == RingIn(s).(head := slot)
            && RingIn(t).Valid() && Queue(t) == Keys(s, RingIn(t))
  {
    hide WordAt, PutWord, Words.Placed, Words.AsRing, Keys;
    var t := PutWord(s, HEAD, Offset(s, slot));
    PutWordOnly(s, HEAD, Offset(s, slot));
    WordsPutHead(s, Offset(s, slot));
    WordsIn(s).HeadAt(slot);
    RingValid(t);
    forall a | RingIn(t).Address(0) <= a < RingIn(t).Address(RingIn(t).slots) ensures t[a] == s[a] {
      EntriesApart(WordsIn(t), a);
    }
    KeysFrame(s, t, RingIn(t));
  }

  lemma TailMoves(s: seq<Byte>, slot: nat)
    requires |s| >= BDA + SEGMENT_BYTES && Placed(s) && slot < RingIn(s).slots
    ensures var t := PutWord(s, TAIL, Offset(s, slot));
            && Placed(t) && RingIn(t) == RingIn(s).(tail := slot)
            && RingIn(t).Valid() && Queue(t) == Keys(s, RingIn(t))
  {
    hide WordAt, PutWord, Words.Placed, Words.AsRing, Keys;
    var t := PutWord(s, TAIL, Offset(s, slot));
    PutWordOnly(s, TAIL, Offset(s, slot));
    WordsPutTail(s, Offset(s, slot));
    WordsIn(s).TailAt(slot);
    RingValid(t);
    forall a | RingIn(t).Address(0) <= a < RingIn(t).Address(RingIn(t).slots) ensures t[a] == s[a] {
      EntriesApart(WordsIn(t), a);
    }
    KeysFrame(s, t, RingIn(t));
  }

  function Stored(s: seq<Byte>, key: KeyStroke): (t: seq<Byte>)
    requires |s| >= BDA + SEGMENT_BYTES && Placed(s)
    ensures |t| == |s|
  {
    RingValid(s);
    PutPair(s, RingIn(s).Address(RingIn(s).tail), key.character, key.scanCode)
  }

  // Entries are stored outside everything that describes the ring.
  lemma EntryStored(s: seq<Byte>, key: KeyStroke)
    requires |s| >= BDA + SEGMENT_BYTES && Placed(s)
    ensures WordsIn(Stored(s, key)) == WordsIn(s)
  {
    hide WordAt, Words.Placed, Words.AsRing;
    RingValid(s);
    var t, ring := Stored(s, key), RingIn(s);
    var at := ring.Address(ring.tail);
    EntriesApart(WordsIn(s), at);
    EntriesApart(WordsIn(s), at + 1);
    WordsFrame(s, t);
  }

  // The bytes of memory after a keystroke enters a ring with room for it.
  function Pushed(s: seq<Byte>, key: KeyStroke): (t: seq<Byte>)
    requires |s| >= BDA + SEGMENT_BYTES && Placed(s)
    ensures |t| == |s|
  {
    RingValid(s);
    PutWord(Stored(s, key), TAIL, Offset(s, RingIn(s).Next(RingIn(s).tail)))
  }

  /** A keystroke with room enters the queue at its end. */
  lemma PushedQueues(s: seq<Byte>, key: KeyStroke)
    requires |s| >= BDA + SEGMENT_BYTES && Placed(s) && RingIn(s).Next(RingIn(s).tail) != RingIn(s).head
    ensures Placed(Pushed(s, key)) && Queue(Pushed(s, key)) == Queue(s) + [key]
    ensures RingIn(Pushed(s, key)) == RingIn(s).(tail := RingIn(s).Next(RingIn(s).tail))
  {
    hide WordAt, PutWord, Words.Placed, Words.AsRing, Keys;
    RingValid(s);
    EntryStored(s, key);
    var ring := RingIn(s);
    TailMoves(Stored(s, key), ring.Next(ring.tail));
    KeysPush(s, Stored(s, key), ring, key);
  }

  // A push writes the entry at the tail and the tail itself.
  lemma PushedOnly(s: seq<Byte>, key: KeyStroke)
    requires |s| >= BDA + SEGMENT_BYTES && Placed(s)
    ensures OnlyRing(s, Pushed(s, key))
  {
    hide WordAt, PutWord, Words.Placed, Words.AsRing;
    RingValid(s);
    var ring := RingIn(s);
    PutWordOnly(Stored(s, key), TAIL, Offset(s, ring.Next(ring.tail)));
  }

  /** The guest finds the oldest keystroke where the head points, the character before the scan code. */
  lemma QueueHead(s: seq<Byte>)
    requires |s| >= BDA + SEGMENT_BYTES && Placed(s) && Queue(s) != []
    ensures var head := 0x400 + (s[0x41a] as int) + 0x100 * (s[0x41b] as int);
            head + 2 <= |s| && Queue(s)[0] == KeyStroke(s[head], s[head + 1])
  {
    RingValid(s);
  }

  /** A keystroke goes where the tail points, and the tail moves by two or from the end to the start. */
  lemma PushedBytes(s: seq<Byte>, key: KeyStroke)
    requires |s| >= BDA + SEGMENT_BYTES && Placed(s)
    ensures var t := Pushed(s, key);
            var tail := (s[0x41c] as int) + 0x100 * (s[0x41d] as int);
            var start := (s[0x480] as int) + 0x100 * (s[0x481] as int);
            var end := (s[0x482] as int) + 0x100 * (s[0x483] as int);
            && 0x400 + tail + 2 <= |s| && t[0x400 + tail] == key.character && t[0x400 + tail + 1] == key.scanCode
            && (t[0x41c] as int) + 0x100 * (t[0x41d] as int) == if tail + 2 == end then start else tail + 2
  {
    RingValid(s);
    WordsIn(s).NextOffset(RingIn(s).tail);
    var tail := WordAt(s, TAIL);
    EntriesApart(WordsIn(s), BDA + tail);
    EntriesApart(WordsIn(s), BDA + tail + 1);
    PutWordOnly(Stored(s, key), TAIL, Offset(s, RingIn(s).Next(RingIn(s).tail)));
  }

  /** There is room exactly while the queue is shorter than the ring's capacity. */
  lemma RoomExact(s: seq<Byte>, ring: Ring)
    requires |s| >= BDA + SEGMENT_BYTES && ring.Valid()
    ensures |Keys(s, ring)| <= ring.Capacity()
    ensures ring.Next(ring.tail) == ring.head <==> |Keys(s, ring)| == ring.Capacity()
  {
    KeysLength(s, ring);
  }

  // Memory changed nowhere but in the ring's entries and its two cursors.
  ghost predicate OnlyRing(s: seq<Byte>, t: seq<Byte>)
    requires |s| >= BDA + SEGMENT_BYTES && Placed(s)
  {
    && |t| == |s|
    && forall a | 0 <= a < |s| && !(HEAD <= a < TAIL + 2)
                  && !(RingIn(s).Address(0) <= a < RingIn(s).Address(RingIn(s).slots)) ::
         t[a] == s[a]
  }

  lemma NothingChanged(s: seq<Byte>)
    requires |s| >= BDA + SEGMENT_BYTES && Placed(s)
    ensures OnlyRing(s, s)
  {}

  const POWER_UP := Words(DEFAULT_START, DEFAULT_END, DEFAULT_START, DEFAULT_START)

  /** The ring set up at power-on is well placed, empty, and holds fifteen keystrokes. */
  lemma PowerUpRing(s: seq<Byte>)
    requires |s| >= BDA + SEGMENT_BYTES
    ensures POWER_UP.Placed() && POWER_UP.AsRing().Valid() && POWER_UP.AsRing().Capacity() == 15
    ensures Keys(s, POWER_UP.AsRing()) == []
  {}

  // Four words written, in the order the ring is set up in.
  function SetUp(s: seq<Byte>): (t: seq<Byte>)
    requires |s| >= BDA + SEGMENT_BYTES
    ensures |t| == |s|
  {
    var cursors := PutWord(PutWord(s, HEAD, DEFAULT_START), TAIL, DEFAULT_START);
    PutWord(PutWord(cursors, BUFFER_START, DEFAULT_START), BUFFER_END, DEFAULT_END)
  }

  lemma SetUpWords(s: seq<Byte>)
    requires |s| >= BDA + SEGMENT_BYTES
    ensures WordsIn(SetUp(s)) == POWER_UP
  {
    hide PutWord, WordsIn;
    var a := PutWord(s, HEAD, DEFAULT_START);
    var b := PutWord(a, TAIL, DEFAULT_START);
    var c := PutWord(b, BUFFER_START, DEFAULT_START);
    WordsPutHead(s, DEFAULT_START);
    WordsPutTail(a, DEFAULT_START);
    WordsPutStart(b, DEFAULT_START);
    WordsPutEnd(c, DEFAULT_END);
  }

  /** The keyboard's view of guest RAM; the ring there is the only queue. */
  class DataArea {
    const memory: array<Byte>

    ghost predicate Valid() reads memory {
      memory.Length >= BDA + SEGMENT_BYTES && Placed(memory[..])
    }

    constructor (memory: array<Byte>)
      requires memory.Length >= BDA + SEGMENT_BYTES
      modifies memory
      ensures this.memory == memory && Valid()
      ensures Queue(memory[..]) == [] && RingIn(memory[..]).Valid() && RingIn(memory[..]).Capacity() == 15
    {
      this.memory := memory;
      new;
      hide PutWord, WordsIn, Words.Placed, Words.AsRing, Keys;
      ghost var s := memory[..];
      SetUpWords(s);
      WriteWord(HEAD, DEFAULT_START);
      WriteWord(TAIL, DEFAULT_START);
      WriteWord(BUFFER_START, DEFAULT_START);
      WriteWord(BUFFER_END, DEFAULT_END);
      ghost var t := memory[..];
      memory[BDA + 0x17] := 0;
      memory[BDA + 0x18] := 0;
      memory[BREAK_FLAG] := 0;
      memory[BDA + 0x96] := 0x10;
      WordsFrame(t, memory[..]);
      PowerUpRing(memory[..]);
    }

    method ReadWord(a: nat) returns (w: Word)
      requires a + 2 <= memory.Length
      ensures w == WordAt(memory[..], a)
    {
      w := LittleEndian(memory[a], memory[a + 1]);
    }

    method WritePair(a: nat, first: Byte, second: Byte)
      requires a + 2 <= memory.Length
      modifies memory
      ensures memory[..] == PutPair(old(memory[..]), a, first, second)
    {
      memory[a], memory[a + 1] := first, second;
    }

    method WriteWord(a: nat, w: Word)
      requires a + 2 <= memory.Length
      modifies memory
      ensures memory[..] == PutWord(old(memory[..]), a, w)
    {
      memory[a], memory[a + 1] := Low(w), High(w);
    }

    method Advance(offset: Word, ghost slot: nat) returns (next: Word)
      requires Valid() && slot < RingIn(memory[..]).slots && offset == Offset(memory[..], slot)
      ensures RingIn(memory[..]).Next(slot) < RingIn(memory[..]).slots
      ensures next == Offset(memory[..], RingIn(memory[..]).Next(slot))
    {
      hide WordAt, Words.AsRing, Words.Placed;
      WordsIn(memory[..]).NextOffset(slot);
      next := (offset + 2) % TWO_16;
      var end := ReadWord(BUFFER_END);
      if next == end { next := ReadWord(BUFFER_START); }
    }

    /** Appends a keystroke, or changes no byte when the ring is full. */
    method Push(key: KeyStroke) returns (stored: bool)
      requires Valid()
      modifies memory
      ensures Valid() && OnlyRing(old(memory[..]), memory[..])
      ensures RingIn(old(memory[..])).Valid() && RingIn(memory[..]).Valid()
      ensures RingIn(memory[..]).Capacity() == RingIn(old(memory[..])).Capacity()
      ensures stored == (|Queue(old(memory[..]))| < RingIn(old(memory[..])).Capacity())
      ensures if stored then Queue(memory[..]) == Queue(old(memory[..])) + [key]
              else memory[..] == old(memory[..])
    {
      hide WordsIn, Words.Placed, Words.AsRing, Keys, WordAt, OnlyRing, PutPair;
      ghost var s := memory[..];
      RingValid(s);
      RoomExact(s, RingIn(s));
      NothingChanged(s);
      var tail := ReadWord(TAIL);
      var next := Advance(tail, RingIn(s).tail);
      var head := ReadWord(HEAD);
      if next == head { return false; }
      PushedQueues(s, key);
      PushedOnly(s, key);
      WritePair(BDA + tail, key.character, key.scanCode);
      WriteWord(TAIL, next);
      RingValid(memory[..]);
      return true;
    }

    method Peek() returns (key: Option<KeyStroke>)
      requires Valid()
      ensures key == if Queue(memory[..]) == [] then None else Some(Queue(memory[..])[0])
    {
      RingValid(memory[..]);
      var head := ReadWord(HEAD);
      var tail := ReadWord(TAIL);
      if head == tail { return None; }
      return Some(KeyStroke(memory[BDA + head], memory[BDA + head + 1]));
    }

    /** Takes the oldest keystroke. */
    method Read() returns (key: Option<KeyStroke>)
      requires Valid()
      modifies memory
      ensures Valid() && OnlyRing(old(memory[..]), memory[..])
      ensures RingIn(memory[..]).slots == RingIn(old(memory[..])).slots
      ensures if Queue(old(memory[..])) == [] then key == None && memory[..] == old(memory[..])
              else key == Some(Queue(old(memory[..]))[0]) && Queue(memory[..]) == Queue(old(memory[..]))[1..]
    {
      ghost var s := memory[..];
      RingValid(s);
      key := Peek();
      if key.None? { return; }
      var head := ReadWord(HEAD);
      var next := Advance(head, RingIn(s).head);
      HeadMoves(s, RingIn(s).Next(RingIn(s).head));
      PutWordOnly(s, HEAD, next);
      WriteWord(HEAD, next);
    }

    /** Empties the queue by moving its head. */
    method Discard()
      requires Valid()
      modifies memory
      ensures Valid() && OnlyRing(old(memory[..]), memory[..])
      ensures RingIn(memory[..]) == RingIn(old(memory[..])).(head := RingIn(old(memory[..])).tail)
      ensures Queue(memory[..]) == []
    {
      ghost var s := memory[..];
      RingValid(s);
      var tail := ReadWord(TAIL);
      HeadMoves(s, RingIn(s).tail);
      PutWordOnly(s, HEAD, tail);
      WriteWord(HEAD, tail);
    }

    /** Empties the queue by moving its tail, and raises the break flag. */
    method ControlBreak()
      requires Valid()
      modifies memory
      ensures Valid() && Queue(memory[..]) == []
      ensures RingIn(memory[..]) == RingIn(old(memory[..])).(tail := RingIn(old(memory[..])).head)
      ensures memory[BREAK_FLAG] == BREAK_DETECTED
      ensures OnlyRing(old(memory[..])[BREAK_FLAG := BREAK_DETECTED], memory[..])
    {
      ghost var s := memory[..];
      RingValid(s);
      var head := ReadWord(HEAD);
      TailMoves(s, RingIn(s).head);
      PutWordOnly(s, TAIL, head);
      WriteWord(TAIL, head);
      ghost var t := memory[..];
      memory[BREAK_FLAG] := BREAK_DETECTED;
      BreakFlagApart(t);
      BreakFlagApart(s);
      assert memory[..] == t[BREAK_FLAG := BREAK_DETECTED];
    }
  }

  // The break flag is no part of the ring.
  lemma BreakFlagApart(s: seq<Byte>)
    requires |s| >= BDA + SEGMENT_BYTES && Placed(s)
    ensures var t: seq<Byte> := s[BREAK_FLAG := BREAK_DETECTED];
            Placed(t) && RingIn(t) == RingIn(s) && Queue(t) == Queue(s)
  {
    var t: seq<Byte> := s[BREAK_FLAG := BREAK_DETECTED];
    hide WordAt, Words.Placed, Words.AsRing, Keys;
    WordsFrame(s, t);
    RingValid(s);
    forall a | RingIn(s).Address(0) <= a < RingIn(s).Address(RingIn(s).slots) ensures t[a] == s[a] {
      EntriesApart(WordsIn(s), a);
    }
    KeysFrame(s, t, RingIn(s));
  }

  datatype WriteError = WouldBlock

  /** The host's and guest's view of the same ring. */
  class Keyboard {
    const data: DataArea

    ghost predicate Valid() reads data.memory { data.Valid() }

    constructor (data: DataArea)
      requires data.Valid()
      ensures this.data == data && Valid()
    {
      this.data := data;
    }

    /** Reports the first key the mode can represent, dropping only entries before it that it cannot. */
    method PeekKey(mode: KeyMode) returns (key: Option<KeyStroke>)
      requires Valid()
      modifies data.memory
      ensures Valid()
      ensures Queue(data.memory[..]) == mode.Visible(Queue(old(data.memory[..])))
      ensures key == if Queue(data.memory[..]) == [] then None else mode.Translate(Queue(data.memory[..])[0])
      ensures key.Some? <==> mode.Readable(Queue(old(data.memory[..]))) != []
    {
      ghost var queue := Queue(data.memory[..]);
      VisibleReads(mode, queue);
      while true
        invariant Valid()
        invariant mode.Visible(Queue(data.memory[..])) == mode.Visible(queue)
        decreases |Queue(data.memory[..])|
      {
        var next := data.Peek();
        if next.None? { return None; }
        var translated := mode.Translate(next.value);
        if translated.Some? { return translated; }
        var _ := data.Read();
      }
    }

    /** Successive reads return exactly the readable keystrokes of the queue, in order. */
    method TryReadKey(mode: KeyMode) returns (key: Option<KeyStroke>)
      requires Valid()
      modifies data.memory
      ensures Valid()
      ensures mode.Readable(Queue(old(data.memory[..]))) ==
              if key.None? then [] else [key.value] + mode.Readable(Queue(data.memory[..]))
      ensures key.None? ==> Queue(data.memory[..]) == []
    {
      ghost var queue := Queue(data.memory[..]);
      VisibleReads(mode, queue);
      key := PeekKey(mode);
      if key.Some? { var _ := data.Read(); }
    }

    /** Queues bytes until the ring is full; a short write says how many went in. */
    method Write(bytes: seq<Byte>) returns (r: Result<nat, WriteError>)
      requires Valid()
      modifies data.memory
      ensures Valid() && RingIn(old(data.memory[..])).Valid()
      ensures var queue := Queue(old(data.memory[..]));
              var room := RingIn(old(data.memory[..])).Capacity() - |queue|;
              && r == (if bytes != [] && room == 0 then Err(WouldBlock) else Ok(Min(|bytes|, room)))
              && Queue(data.memory[..]) == queue + Characters(bytes[..Min(|bytes|, room)])
    {
      hide WordsIn, Words.Placed, Words.AsRing, Keys, OnlyRing;
      ghost var queue := Queue(data.memory[..]);
      RingValid(data.memory[..]);
      RoomExact(data.memory[..], RingIn(data.memory[..]));
      for written := 0 to |bytes|
        invariant Valid() && RingIn(data.memory[..]).Valid()
        invariant RingIn(data.memory[..]).Capacity() == RingIn(old(data.memory[..])).Capacity()
        invariant Queue(data.memory[..]) == queue + Characters(bytes[..written])
        invariant |queue| + written <= RingIn(old(data.memory[..])).Capacity()
      {
        var stored := data.Push(KeyStroke(bytes[written], 0));
        if !stored {
          return if written == 0 then Err(WouldBlock) else Ok(written);
        }
        assert bytes[..written + 1] == bytes[..written] + [bytes[written]];
        RoomExact(data.memory[..], RingIn(data.memory[..]));
      }
      assert bytes[..|bytes|] == bytes;
      return Ok(|bytes|);
    }
  }

  function Characters(bytes: seq<Byte>): (keys: seq<KeyStroke>)
    ensures |keys| == |bytes|
  {
    seq(|bytes|, (i: nat) requires i < |bytes| => KeyStroke(bytes[i], 0))
  }
}
