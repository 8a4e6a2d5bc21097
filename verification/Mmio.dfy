/** The memory bus of crates/machine: each transfer is cut into pieces that one device, or none, owns. */
module MmioBus {
  import opened Wrappers
  import opened Machine

  // Both ends belong to the range.
  datatype Range = Range(start: nat, end: nat) {
    predicate Has(a: nat) { start <= a <= end }
  }

  // `device` identifies a device, which several connections may share.
  datatype Connection = Connection(device: nat, mmio: seq<Range>)

  datatype Entry = Entry(device: nat, range: Range)

  // ----- accepting a set of ranges

  ghost predicate Disjoint(ranges: seq<Range>) {
    && (forall r <- ranges :: r.start <= r.end)
    && forall i, j | 0 <= i < j < |ranges| :: ranges[i].end < ranges[j].start || ranges[j].end < ranges[i].start
  }

  function InsertByStart(range: Range, sorted: seq<Range>): seq<Range> {
    if sorted == [] || range.start <= sorted[0].start then [range] + sorted
    else [sorted[0]] + InsertByStart(range, sorted[1..])
  }

  function SortByStart(ranges: seq<Range>): seq<Range> {
    if ranges == [] then [] else InsertByStart(ranges[0], SortByStart(ranges[1..]))
  }

  predicate NeighboursApart(ranges: seq<Range>) {
    forall i | 0 <= i < |ranges| - 1 :: ranges[i].end < ranges[i + 1].start
  }

  /** The construction check: no empty range, and neighbours apart once sorted by start. */
  predicate Accepted(ranges: seq<Range>) {
    && (forall r <- ranges :: r.start <= r.end)
    && NeighboursApart(SortByStart(ranges))
  }

  ghost predicate ByStart(ranges: seq<Range>) {
    forall i, j | 0 <= i < j < |ranges| :: ranges[i].start <= ranges[j].start
  }

  ghost predicate ApartFrom(range: Range, ranges: seq<Range>) {
    forall i | 0 <= i < |ranges| :: range.end < ranges[i].start || ranges[i].end < range.start
  }

  lemma DisjointCons(range: Range, ranges: seq<Range>)
    ensures Disjoint([range] + ranges) <==> range.start <= range.end && Disjoint(ranges) && ApartFrom(range, ranges)
  {
    var all := [range] + ranges;
    if Disjoint(all) {
      forall r | r in ranges ensures r.start <= r.end { assert r in all; }
      forall i, j | 0 <= i < j < |ranges|
        ensures ranges[i].end < ranges[j].start || ranges[j].end < ranges[i].start
      {
        assert all[i + 1] == ranges[i] && all[j + 1] == ranges[j];
      }
      forall i | 0 <= i < |ranges| ensures range.end < ranges[i].start || ranges[i].end < range.start {
        assert all[0] == range && all[i + 1] == ranges[i];
      }
      assert all[0] in all;
    }
  }

  lemma ApartCons(range: Range, first: Range, rest: seq<Range>)
    ensures ApartFrom(range, [first] + rest) <==>
              (range.end < first.start || first.end < range.start) && ApartFrom(range, rest)
  {
    var all := [first] + rest;
    if ApartFrom(range, all) {
      assert all[0] == first;
      forall i | 0 <= i < |rest| ensures range.end < rest[i].start || rest[i].end < range.start {
        assert all[i + 1] == rest[i];
      }
    }
  }

  lemma {:induction false} InsertApart(range: Range, sorted: seq<Range>, other: Range)
    ensures ApartFrom(other, InsertByStart(range, sorted)) <==> ApartFrom(other, [range] + sorted)
    decreases |sorted|
  {
    if sorted != [] && range.start > sorted[0].start {
      InsertApart(range, sorted[1..], other);
      ApartCons(other, sorted[0], InsertByStart(range, sorted[1..]));
      ApartCons(other, range, sorted[1..]);
      assert [sorted[0]] + sorted[1..] == sorted;
      ApartCons(other, sorted[0], sorted[1..]);
      ApartCons(other, range, sorted);
    }
  }

  // Sorting does not change which ranges overlap.
  lemma {:induction false} InsertDisjoint(range: Range, sorted: seq<Range>)
    ensures Disjoint(InsertByStart(range, sorted)) <==> Disjoint([range] + sorted)
    decreases |sorted|
  {
    if sorted != [] && range.start > sorted[0].start {
      var rest := sorted[1..];
      InsertDisjoint(range, rest);
      InsertApart(range, rest, sorted[0]);
      DisjointCons(sorted[0], InsertByStart(range, rest));
      DisjointCons(range, rest);
      ApartCons(sorted[0], range, rest);
      assert [sorted[0]] + rest == sorted;
      DisjointCons(sorted[0], rest);
      DisjointCons(range, sorted);
      ApartCons(range, sorted[0], rest);
    }
  }

  lemma {:induction false} SortDisjoint(ranges: seq<Range>)
    ensures Disjoint(SortByStart(ranges)) <==> Disjoint(ranges)
    decreases |ranges|
  {
    if ranges != [] {
      SortDisjoint(ranges[1..]);
      InsertDisjoint(ranges[0], SortByStart(ranges[1..]));
      DisjointCons(ranges[0], SortByStart(ranges[1..]));
      DisjointCons(ranges[0], ranges[1..]);
      SortApart(ranges[1..], ranges[0]);
      assert [ranges[0]] + ranges[1..] == ranges;
    }
  }

  lemma {:induction false} SortApart(ranges: seq<Range>, other: Range)
    ensures ApartFrom(other, SortByStart(ranges)) <==> ApartFrom(other, ranges)
    decreases |ranges|
  {
    if ranges != [] {
      SortApart(ranges[1..], other);
      InsertApart(ranges[0], SortByStart(ranges[1..]), other);
      ApartCons(other, ranges[0], SortByStart(ranges[1..]));
      ApartCons(other, ranges[0], ranges[1..]);
      assert [ranges[0]] + ranges[1..] == ranges;
    }
  }

  lemma {:induction false} InsertMembers(range: Range, sorted: seq<Range>, r: Range)
    ensures r in InsertByStart(range, sorted) <==> r == range || r in sorted
    decreases |sorted|
  {
    if sorted != [] && range.start > sorted[0].start { InsertMembers(range, sorted[1..], r); }
  }

  lemma {:induction false} InsertSorted(range: Range, sorted: seq<Range>)
    requires ByStart(sorted)
    ensures ByStart(InsertByStart(range, sorted))
    decreases |sorted|
  {
    if sorted != [] && range.start > sorted[0].start {
      assert ByStart(sorted[1..]);
      InsertSorted(range, sorted[1..]);
      var rest := InsertByStart(range, sorted[1..]);
      forall i | 0 <= i < |rest| ensures sorted[0].start <= rest[i].start {
        InsertMembers(range, sorted[1..], rest[i]);
      }
    }
  }

  lemma {:induction false} SortSorted(ranges: seq<Range>)
    ensures ByStart(SortByStart(ranges))
    ensures forall r :: r in SortByStart(ranges) <==> r in ranges
    decreases |ranges|
  {
    if ranges != [] {
      SortSorted(ranges[1..]);
      InsertSorted(ranges[0], SortByStart(ranges[1..]));
      forall r ensures r in SortByStart(ranges) <==> r in ranges {
        InsertMembers(ranges[0], SortByStart(ranges[1..]), r);
      }
    }
  }

  // Among ranges sorted by start, comparing neighbours compares all.
  lemma {:induction false} NeighboursReach(ranges: seq<Range>, i: nat, j: nat)
    requires i < j < |ranges| && NeighboursApart(ranges) && forall r <- ranges :: r.start <= r.end
    ensures ranges[i].end < ranges[j].start
    decreases j - i
  {
    if i + 1 < j {
      NeighboursReach(ranges, i + 1, j);
      assert ranges[i + 1] in ranges;
    }
  }

  /** Exactly the sets of nonempty, pairwise disjoint ranges are accepted, in whatever order they come. */
  lemma AcceptedIffDisjoint(ranges: seq<Range>)
    ensures Accepted(ranges) <==> Disjoint(ranges)
  {
    var sorted := SortByStart(ranges);
    SortSorted(ranges);
    SortDisjoint(ranges);
    if Accepted(ranges) {
      forall r | r in sorted ensures r.start <= r.end {}
      forall i, j | 0 <= i < j < |sorted| ensures sorted[i].end < sorted[j].start {
        NeighboursReach(sorted, i, j);
      }
    }
    if Disjoint(ranges) {
      forall i | 0 <= i < |sorted| - 1 ensures sorted[i].end < sorted[i + 1].start {
        assert sorted[i + 1] in sorted;
      }
    }
  }

  // ----- who owns an address

  function Entries(c: Connection): (entries: seq<Entry>)
    ensures |entries| == |c.mmio| && forall i | 0 <= i < |entries| :: entries[i] == Entry(c.device, c.mmio[i])
  {
    seq(|c.mmio|, (i: nat) requires i < |c.mmio| => Entry(c.device, c.mmio[i]))
  }

  function Flat(connections: seq<Connection>): seq<Entry> {
    if connections == [] then [] else Entries(connections[0]) + Flat(connections[1..])
  }

  function Ranges(entries: seq<Entry>): (ranges: seq<Range>)
    ensures |ranges| == |entries| && forall i | 0 <= i < |ranges| :: ranges[i] == entries[i].range
  {
    seq(|entries|, (i: nat) requires i < |entries| => entries[i].range)
  }

  function Hit(entries: seq<Entry>, a: nat): Option<Entry> {
    if entries == [] then None
    else if entries[0].range.Has(a) then Some(entries[0])
    else Hit(entries[1..], a)
  }

  function Owner(entries: seq<Entry>, a: nat): Option<nat> {
    match Hit(entries, a)
    case Some(entry) => Some(entry.device)
    case None => None
  }

  lemma {:induction false} FlatSplit(connections: seq<Connection>, i: nat)
    requires i <= |connections|
    ensures Flat(connections) == Flat(connections[..i]) + Flat(connections[i..])
    decreases i
  {
    if i == 0 {
      assert connections[..0] == [] && connections[0..] == connections;
    } else {
      FlatSplit(connections[1..], i - 1);
      assert connections[..i][1..] == connections[1..][..i - 1] && connections[1..][i - 1..] == connections[i..];
    }
  }

  // The entries a nested loop over connections and their ranges has been through.
  function Before(connections: seq<Connection>, i: nat, j: nat): seq<Entry>
    requires i < |connections| && j <= |connections[i].mmio|
  {
    Flat(connections[..i]) + Entries(connections[i])[..j]
  }

  lemma BeforeIsPrefix(connections: seq<Connection>, i: nat, j: nat)
    requires i < |connections| && j <= |connections[i].mmio|
    ensures Before(connections, i, j) <= Flat(connections)
    ensures Before(connections, i, 0) == Flat(connections[..i])
    ensures j < |connections[i].mmio| ==>
              && Before(connections, i, j + 1)
                 == Before(connections, i, j) + [Entry(connections[i].device, connections[i].mmio[j])]
              && Before(connections, i, j + 1) <= Flat(connections)
    ensures j == |connections[i].mmio| ==> Before(connections, i, j) == Flat(connections[..i + 1])
  {
    FlatSplit(connections, i);
    assert connections[i..][1..] == connections[i + 1..];
    FlatSplit(connections[..i + 1], i);
    assert connections[..i + 1][..i] == connections[..i] && connections[..i + 1][i..] == [connections[i]];
    assert Flat([connections[i]]) == Entries(connections[i]) + Flat([]);
  }

  lemma {:induction false} HitMeans(entries: seq<Entry>, a: nat)
    ensures match Hit(entries, a)
            case Some(entry) => entry in entries && entry.range.Has(a)
            case None => forall e <- entries :: !e.range.Has(a)
    decreases |entries|
  {
    if entries != [] && !entries[0].range.Has(a) { HitMeans(entries[1..], a); }
  }

  // Disjoint ranges leave no choice.
  lemma {:induction false} HitUnique(entries: seq<Entry>, k: nat, a: nat)
    requires Disjoint(Ranges(entries)) && k < |entries| && entries[k].range.Has(a)
    ensures Hit(entries, a) == Some(entries[k])
    decreases k
  {
    if k > 0 {
      FirstApart(entries, k);
      DisjointTail(entries);
      HitUnique(entries[1..], k - 1, a);
    }
  }

  lemma FirstApart(entries: seq<Entry>, k: nat)
    requires Disjoint(Ranges(entries)) && 0 < k < |entries|
    ensures entries[0].range.end < entries[k].range.start || entries[k].range.end < entries[0].range.start
  {
    var ranges := Ranges(entries);
    assert ranges[0].end < ranges[k].start || ranges[k].end < ranges[0].start;
  }

  lemma DisjointTail(entries: seq<Entry>)
    requires Disjoint(Ranges(entries)) && entries != []
    ensures Disjoint(Ranges(entries[1..]))
  {
    var ranges := Ranges(entries);
    assert ranges == [ranges[0]] + ranges[1..] && Ranges(entries[1..]) == ranges[1..];
    DisjointCons(ranges[0], ranges[1..]);
  }

  lemma HitNone(entries: seq<Entry>, a: nat)
    requires forall k | 0 <= k < |entries| :: !entries[k].range.Has(a)
    ensures Hit(entries, a).None?
  {
    HitMeans(entries, a);
  }

  /** A piece lies within one range, or within none, and cannot be made longer. */
  ghost predicate Piece(entries: seq<Entry>, a: nat, bytes: nat, count: nat) {
    && 1 <= count <= bytes
    && (forall x | a <= x < a + count :: Hit(entries, x) == Hit(entries, a))
    && (count < bytes ==> Hit(entries, a + count) != Hit(entries, a))
  }

  lemma OwnedPiece(entries: seq<Entry>, k: nat, a: nat, bytes: nat, count: nat)
    requires Disjoint(Ranges(entries)) && k < |entries| && entries[k].range.Has(a) && bytes >= 1
    requires count == Min(bytes, entries[k].range.end - a + 1)
    ensures Hit(entries, a) == Some(entries[k]) && Piece(entries, a, bytes, count)
  {
    forall x | a <= x < a + count ensures Hit(entries, x) == Some(entries[k]) { HitUnique(entries, k, x); }
    HitMeans(entries, a + count);
  }

  lemma FreePiece(entries: seq<Entry>, a: nat, bytes: nat, count: nat)
    requires Disjoint(Ranges(entries)) && 1 <= count <= bytes
    requires forall k | 0 <= k < |entries| ::
               !entries[k].range.Has(a) && (entries[k].range.start > a ==> a + count <= entries[k].range.start)
    requires count == bytes || exists k :: 0 <= k < |entries| && entries[k].range.start == a + count
    ensures Hit(entries, a).None? && Piece(entries, a, bytes, count)
  {
    hide Hit, Disjoint;
    forall x | a <= x < a + count ensures Hit(entries, x).None? { HitNone(entries, x); }
    if count < bytes {
      var k :| 0 <= k < |entries| && entries[k].range.start == a + count;
      RangeFollows(entries, entries[k]);
    }
  }

  // A range that starts right after a piece is hit there.
  lemma RangeFollows(entries: seq<Entry>, e: Entry)
    requires Disjoint(Ranges(entries)) && e in entries
    ensures Hit(entries, e.range.start) == Some(e)
  {
    var k :| 0 <= k < |entries| && entries[k] == e;
    assert Ranges(entries)[k] in Ranges(entries) && Ranges(entries)[k] == e.range;
    HitUnique(entries, k, e.range.start);
  }

  // A range hit right after a piece of another range starts there.
  lemma RangeStarts(entries: seq<Entry>, x: nat)
    requires Disjoint(Ranges(entries)) && Hit(entries, x + 1).Some? && Hit(entries, x) != Hit(entries, x + 1)
    ensures Hit(entries, x + 1).value in entries && Hit(entries, x + 1).value.range.start == x + 1
  {
    HitMeans(entries, x + 1);
    var there := Hit(entries, x + 1).value;
    var k :| 0 <= k < |entries| && entries[k] == there;
    if there.range.start <= x { HitUnique(entries, k, x); }
  }

  /** A device's transfer is cut inside the device exactly where two of its ranges meet. */
  lemma CutWithinDevice(entries: seq<Entry>, a: nat, bytes: nat, count: nat)
    requires Disjoint(Ranges(entries)) && Piece(entries, a, bytes, count) && count < bytes && Hit(entries, a).Some?
    ensures Owner(entries, a + count) == Owner(entries, a) <==>
              exists e <- entries :: e.device == Hit(entries, a).value.device && e.range.start == a + count
  {
    hide Disjoint, Hit;
    var device := Hit(entries, a).value.device;
    if e :| e in entries && e.device == device && e.range.start == a + count { RangeFollows(entries, e); }
    if Owner(entries, a + count) == Owner(entries, a) { RangeStarts(entries, a + count - 1); }
  }

  /** So a transfer can be cut although one device owns all of it. */
  lemma AdjacentRangesCut()
    ensures var entries := [Entry(0, Range(0, 0)), Entry(0, Range(1, 1))];
            Disjoint(Ranges(entries)) && Piece(entries, 0, 2, 1) && Owner(entries, 1) == Owner(entries, 0)
  {
    var entries := [Entry(0, Range(0, 0)), Entry(0, Range(1, 1))];
    assert Hit(entries, 0) == Some(entries[0]);
    assert entries[1..][0] == entries[1] && Hit(entries, 1) == Some(entries[1]);
  }

  // ----- little-endian carriers

  function Value(bytes: seq<Byte>): nat {
    if bytes == [] then 0 else bytes[0] + 0x100 * Value(bytes[1..])
  }

  function Carried(value: nat, n: nat): (bytes: seq<Byte>)
    ensures |bytes| == n
  {
    if n == 0 then [] else [value % 0x100] + Carried(value / 0x100, n - 1)
  }

  /** A carrier returns the bytes put into it, and zeros above them. */
  lemma {:induction false} CarriedValue(bytes: seq<Byte>, n: nat)
    requires |bytes| <= n
    ensures Carried(Value(bytes), n)[..|bytes|] == bytes
    ensures forall i | |bytes| <= i < n :: Carried(Value(bytes), n)[i] == 0
    decreases n
  {
    if bytes == [] {
      if n > 0 { CarriedValue([], n - 1); }
    } else {
      CarriedValue(bytes[1..], n - 1);
    }
  }

  /** The low byte of a carrier is the byte at the lowest address. */
  lemma LowByteFirst(bytes: seq<Byte>)
    requires bytes != []
    ensures Value(bytes) % 0x100 == bytes[0] && Value(bytes) / 0x100 == Value(bytes[1..]) && Value([]) == 0
  {}

  lemma {:induction false} ValueZeros(bytes: seq<Byte>, zeros: seq<Byte>)
    requires forall i | 0 <= i < |zeros| :: zeros[i] == 0
    ensures Value(bytes + zeros) == Value(bytes)
    decreases |bytes| + |zeros|
  {
    if bytes == [] {
      assert bytes + zeros == zeros;
      if zeros != [] {
        ValueZeros([], zeros[1..]);
        assert [] + zeros[1..] == zeros[1..];
      }
    } else {
      assert (bytes + zeros)[1..] == bytes[1..] + zeros;
      ValueZeros(bytes[1..], zeros);
    }
  }

  // ----- byte-addressed devices

  /** What a device does with one byte; reads may have side effects. */
  datatype Behaviour<!S> = Behaviour(read: (S, nat) -> (Byte, S), write: (S, nat, Byte) -> S) {

    // A wide transfer is the device's bytes in ascending order.
    function Read(s: S, a: nat, n: nat): (r: (seq<Byte>, S))
      ensures |r.0| == n
      decreases n
    {
      if n == 0 then ([], s)
      else
        var (first, next) := read(s, a);
        var (rest, end) := Read(next, a + 1, n - 1);
        ([first] + rest, end)
    }

    function Write(s: S, a: nat, bytes: seq<Byte>): S
      decreases |bytes|
    {
      if bytes == [] then s else Write(write(s, a, bytes[0]), a + 1, bytes[1..])
    }
  }

  ghost predicate Known(entries: seq<Entry>, devices: nat) {
    forall e <- entries :: e.device < devices
  }

  lemma OwnerKnown(entries: seq<Entry>, devices: nat, a: nat)
    requires Known(entries, devices)
    ensures Owner(entries, a).Some? ==> Owner(entries, a).value < devices
  {
    HitMeans(entries, a);
  }

  /** The transfer one byte at a time: each byte goes to its owner, and an unowned byte reads FF. */
  function BytesRead<S(!new)>(entries: seq<Entry>, devices: seq<Behaviour<S>>, states: seq<S>, a: nat, n: nat)
    : (r: (seq<Byte>, seq<S>))
    requires |states| == |devices| && Known(entries, |devices|)
    ensures |r.0| == n && |r.1| == |states|
    decreases n
  {
    if n == 0 then ([], states)
    else
      OwnerKnown(entries, |devices|, a);
      match Owner(entries, a)
      case Some(d) =>
        var (first, next) := devices[d].read(states[d], a);
        var (rest, end) := BytesRead(entries, devices, states[d := next], a + 1, n - 1);
        ([first] + rest, end)
      case None =>
        var (rest, end) := BytesRead(entries, devices, states, a + 1, n - 1);
        ([0xff] + rest, end)
  }

  function BytesWritten<S(!new)>(
      entries: seq<Entry>, devices: seq<Behaviour<S>>, states: seq<S>, a: nat, bytes: seq<Byte>): (r: seq<S>)
    requires |states| == |devices| && Known(entries, |devices|)
    ensures |r| == |states|
    decreases |bytes|
  {
    if bytes == [] then states
    else
      OwnerKnown(entries, |devices|, a);
      match Owner(entries, a)
      case Some(d) =>
        BytesWritten(entries, devices, states[d := devices[d].write(states[d], a, bytes[0])], a + 1, bytes[1..])
      case None => BytesWritten(entries, devices, states, a + 1, bytes[1..])
  }

  ghost predicate OwnedBy(entries: seq<Entry>, owner: Option<nat>, a: nat, count: nat) {
    forall x | a <= x < a + count :: Owner(entries, x) == owner
  }

  // A piece owned by one device is one wide transfer of that device.
  lemma {:induction false} ReadOwned<S(!new)>(
      entries: seq<Entry>, devices: seq<Behaviour<S>>, states: seq<S>, a: nat, count: nat, n: nat, d: nat)
    requires |states| == |devices| && Known(entries, |devices|) && d < |devices| && count <= n
    requires OwnedBy(entries, Some(d), a, count)
    ensures var (bytes, next) := devices[d].Read(states[d], a, count);
            var (rest, end) := BytesRead(entries, devices, states[d := next], a + count, n - count);
            BytesRead(entries, devices, states, a, n) == (bytes + rest, end)
    decreases count
  {
    if count == 0 {
      assert states[d := states[d]] == states;
      assert [] + BytesRead(entries, devices, states, a, n).0 == BytesRead(entries, devices, states, a, n).0;
    } else {
      assert Owner(entries, a) == Some(d);
      var (first, next) := devices[d].read(states[d], a);
      var (bytes, last) := devices[d].Read(next, a + 1, count - 1);
      ReadOwned(entries, devices, states[d := next], a + 1, count - 1, n - 1, d);
      assert states[d := next][d := last] == states[d := last];
      var rest := BytesRead(entries, devices, states[d := last], a + count, n - count).0;
      assert [first] + (bytes + rest) == [first] + bytes + rest;
    }
  }

  lemma {:induction false} ReadUnowned<S(!new)>(
      entries: seq<Entry>, devices: seq<Behaviour<S>>, states: seq<S>, a: nat, count: nat, n: nat)
    requires |states| == |devices| && Known(entries, |devices|) && count <= n
    requires OwnedBy(entries, None, a, count)
    ensures var (rest, end) := BytesRead(entries, devices, states, a + count, n - count);
            BytesRead(entries, devices, states, a, n) == (Unconnected(count) + rest, end)
    decreases count
  {
    if count == 0 {
      var all := BytesRead(entries, devices, states, a, n);
      assert Unconnected(0) + all.0 == all.0;
    } else {
      assert Owner(entries, a) == None;
      ReadUnowned(entries, devices, states, a + 1, count - 1, n - 1);
      var rest := BytesRead(entries, devices, states, a + count, n - count).0;
      assert [0xff] + (Unconnected(count - 1) + rest) == Unconnected(count) + rest;
    }
  }

  function Unconnected(n: nat): (bytes: seq<Byte>)
    ensures |bytes| == n
  {
    seq(n, i => 0xff)
  }

  lemma {:induction false} WriteOwned<S(!new)>(
      entries: seq<Entry>, devices: seq<Behaviour<S>>, states: seq<S>, a: nat, bytes: seq<Byte>, count: nat, d: nat)
    requires |states| == |devices| && Known(entries, |devices|) && d < |devices| && count <= |bytes|
    requires OwnedBy(entries, Some(d), a, count)
    ensures var next := devices[d].Write(states[d], a, bytes[..count]);
            BytesWritten(entries, devices, states, a, bytes) ==
            BytesWritten(entries, devices, states[d := next], a + count, bytes[count..])
    decreases count
  {
    if count == 0 {
      assert states[d := states[d]] == states && bytes[0..] == bytes;
    } else {
      assert Owner(entries, a) == Some(d);
      var next := devices[d].write(states[d], a, bytes[0]);
      WriteOwned(entries, devices, states[d := next], a + 1, bytes[1..], count - 1, d);
      assert bytes[..count][1..] == bytes[1..][..count - 1] && bytes[1..][count - 1..] == bytes[count..];
      var last := devices[d].Write(next, a + 1, bytes[1..][..count - 1]);
      assert states[d := next][d := last] == states[d := last];
    }
  }

  lemma {:induction false} WriteUnowned<S(!new)>(
      entries: seq<Entry>, devices: seq<Behaviour<S>>, states: seq<S>, a: nat, bytes: seq<Byte>, count: nat)
    requires |states| == |devices| && Known(entries, |devices|) && count <= |bytes|
    requires OwnedBy(entries, None, a, count)
    ensures BytesWritten(entries, devices, states, a, bytes) ==
            BytesWritten(entries, devices, states, a + count, bytes[count..])
    decreases count
  {
    if count == 0 {
      assert bytes[0..] == bytes;
    } else {
      assert Owner(entries, a) == None;
      WriteUnowned(entries, devices, states, a + 1, bytes[1..], count - 1);
      assert bytes[1..][count - 1..] == bytes[count..];
    }
  }

  lemma PieceOwned(entries: seq<Entry>, a: nat, bytes: nat, count: nat)
    requires Piece(entries, a, bytes, count)
    ensures 1 <= count <= bytes && OwnedBy(entries, Owner(entries, a), a, count)
  {}

  // ----- transfers by whole pieces

  /** A device as the bus sees it: transfers of one to eight bytes, whose meaning is the device's own. */
  datatype Device<!S> = Device(read: (S, nat, nat) -> (nat, S), write: (S, nat, nat, nat) -> S)

  function Longest(entries: seq<Entry>, a: nat, n: nat, count: nat): (longest: nat)
    requires 1 <= count <= n && forall x | a <= x < a + count :: Hit(entries, x) == Hit(entries, a)
    ensures Piece(entries, a, n, longest)
    decreases n - count
  {
    if count < n && Hit(entries, a + count) == Hit(entries, a) then Longest(entries, a, n, count + 1) else count
  }

  // There is only one way to cut a piece.
  lemma PieceUnique(entries: seq<Entry>, a: nat, n: nat, one: nat, other: nat)
    requires Piece(entries, a, n, one) && Piece(entries, a, n, other)
    ensures one == other
  {
    assert one < other ==> a <= a + one < a + other;
    assert other < one ==> a <= a + other < a + one;
  }

  // What one piece of a transfer amounts to, whoever owns it.
  function PieceRead<S(!new)>(
      devices: seq<Device<S>>, states: seq<S>, owner: Option<nat>, a: nat, count: nat): (r: (seq<Byte>, seq<S>))
    requires |states| == |devices| && (owner.Some? ==> owner.value < |devices|)
    ensures |r.0| == count && |r.1| == |states|
  {
    match owner
    case Some(d) =>
      var (value, next) := devices[d].read(states[d], a, count);
      (Carried(value, count), states[d := next])
    case None => (Unconnected(count), states)
  }

  function PieceWritten<S(!new)>(
      devices: seq<Device<S>>, states: seq<S>, owner: Option<nat>, a: nat, bytes: seq<Byte>): (r: seq<S>)
    requires |states| == |devices| && (owner.Some? ==> owner.value < |devices|)
    ensures |r| == |states|
  {
    match owner
    case Some(d) => states[d := devices[d].write(states[d], a, |bytes|, Value(bytes))]
    case None => states
  }

  /** The transfer cut into its longest pieces, each one access of its owner, in ascending order. */
  function PiecesRead<S(!new)>(entries: seq<Entry>, devices: seq<Device<S>>, states: seq<S>, a: nat, n: nat)
    : (r: (seq<Byte>, seq<S>))
    requires |states| == |devices| && Known(entries, |devices|)
    ensures |r.0| == n && |r.1| == |states|
    decreases n
  {
    if n == 0 then ([], states)
    else
      OwnerKnown(entries, |devices|, a);
      var count := Longest(entries, a, n, 1);
      var (bytes, next) := PieceRead(devices, states, Owner(entries, a), a, count);
      var (rest, end) := PiecesRead(entries, devices, next, a + count, n - count);
      (bytes + rest, end)
  }

  function PiecesWritten<S(!new)>(
      entries: seq<Entry>, devices: seq<Device<S>>, states: seq<S>, a: nat, bytes: seq<Byte>): (r: seq<S>)
    requires |states| == |devices| && Known(entries, |devices|)
    ensures |r| == |states|
    decreases |bytes|
  {
    if bytes == [] then states
    else
      OwnerKnown(entries, |devices|, a);
      var count := Longest(entries, a, |bytes|, 1);
      var next := PieceWritten(devices, states, Owner(entries, a), a, bytes[..count]);
      PiecesWritten(entries, devices, next, a + count, bytes[count..])
  }

  lemma ReadPiece<S(!new)>(
      entries: seq<Entry>, devices: seq<Device<S>>, states: seq<S>, a: nat, count: nat, n: nat)
    requires |states| == |devices| && Known(entries, |devices|) && Piece(entries, a, n, count)
    ensures 1 <= count <= n && (Owner(entries, a).Some? ==> Owner(entries, a).value < |devices|)
    ensures var (bytes, next) := PieceRead(devices, states, Owner(entries, a), a, count);
            var (rest, end) := PiecesRead(entries, devices, next, a + count, n - count);
            PiecesRead(entries, devices, states, a, n) == (bytes + rest, end)
  {
    OwnerKnown(entries, |devices|, a);
    PieceUnique(entries, a, n, count, Longest(entries, a, n, 1));
  }

  lemma WritePiece<S(!new)>(
      entries: seq<Entry>, devices: seq<Device<S>>, states: seq<S>, a: nat, bytes: seq<Byte>, count: nat)
    requires |states| == |devices| && Known(entries, |devices|) && Piece(entries, a, |bytes|, count)
    ensures 1 <= count <= |bytes| && (Owner(entries, a).Some? ==> Owner(entries, a).value < |devices|)
    ensures PiecesWritten(entries, devices, states, a, bytes) ==
            PiecesWritten(entries, devices, PieceWritten(devices, states, Owner(entries, a), a, bytes[..count]),
                          a + count, bytes[count..])
  {
    OwnerKnown(entries, |devices|, a);
    PieceUnique(entries, a, |bytes|, count, Longest(entries, a, |bytes|, 1));
  }

  // ----- devices whose wide transfers are made of bytes

  ghost predicate ByteAddressed<S(!new)>(device: Device<S>, behaviour: Behaviour<S>) {
    && (forall s: S, a: nat, n: nat | 1 <= n <= 8 ::
          device.read(s, a, n) == (Value(behaviour.Read(s, a, n).0), behaviour.Read(s, a, n).1))
    && (forall s: S, a: nat, n: nat, value: nat | 1 <= n <= 8 ::
          device.write(s, a, n, value) == behaviour.Write(s, a, Carried(value, n)))
  }

  ghost predicate AllByteAddressed<S(!new)>(devices: seq<Device<S>>, behaviours: seq<Behaviour<S>>) {
    |behaviours| == |devices| && forall d | 0 <= d < |devices| :: ByteAddressed(devices[d], behaviours[d])
  }

  lemma CarriedBack(bytes: seq<Byte>)
    ensures Carried(Value(bytes), |bytes|) == bytes
  {
    CarriedValue(bytes, |bytes|);
    assert Carried(Value(bytes), |bytes|)[..|bytes|] == Carried(Value(bytes), |bytes|);
  }

  lemma PieceReadsBytes<S(!new)>(
      devices: seq<Device<S>>, behaviours: seq<Behaviour<S>>, states: seq<S>, d: nat, a: nat, count: nat)
    requires |states| == |devices| && AllByteAddressed(devices, behaviours) && d < |devices| && 1 <= count <= 8
    ensures var (bytes, next) := behaviours[d].Read(states[d], a, count);
            PieceRead(devices, states, Some(d), a, count) == (bytes, states[d := next])
  {
    assert ByteAddressed(devices[d], behaviours[d]);
    CarriedBack(behaviours[d].Read(states[d], a, count).0);
  }

  lemma PieceWritesBytes<S(!new)>(
      devices: seq<Device<S>>, behaviours: seq<Behaviour<S>>, states: seq<S>, d: nat, a: nat, bytes: seq<Byte>)
    requires |states| == |devices| && AllByteAddressed(devices, behaviours) && d < |devices| && 1 <= |bytes| <= 8
    ensures PieceWritten(devices, states, Some(d), a, bytes)
            == states[d := behaviours[d].Write(states[d], a, bytes)]
  {
    assert ByteAddressed(devices[d], behaviours[d]);
    CarriedBack(bytes);
  }

  lemma PieceReadsSome<S(!new)>(devices: seq<Device<S>>, states: seq<S>, d: nat, a: nat, count: nat)
    requires |states| == |devices| && d < |devices|
    ensures var (value, next) := devices[d].read(states[d], a, count);
            PieceRead(devices, states, Some(d), a, count) == (Carried(value, count), states[d := next])
  {}

  lemma PieceReadsNone<S(!new)>(devices: seq<Device<S>>, states: seq<S>, a: nat, count: nat)
    requires |states| == |devices|
    ensures PieceRead(devices, states, None, a, count) == (Unconnected(count), states)
  {}

  lemma PieceWritesNone<S(!new)>(devices: seq<Device<S>>, states: seq<S>, a: nat, bytes: seq<Byte>)
    requires |states| == |devices|
    ensures PieceWritten(devices, states, None, a, bytes) == states
  {}

  // One piece, and the rest byte by byte.
  lemma PieceThenBytesRead<S(!new)>(
      entries: seq<Entry>, devices: seq<Device<S>>, behaviours: seq<Behaviour<S>>, states: seq<S>,
      a: nat, count: nat, n: nat)
    requires |states| == |devices| && Known(entries, |devices|) && AllByteAddressed(devices, behaviours)
    requires Piece(entries, a, n, count) && n <= 8
    ensures Owner(entries, a).Some? ==> Owner(entries, a).value < |devices|
    ensures var piece := PieceRead(devices, states, Owner(entries, a), a, count);
            var rest := BytesRead(entries, behaviours, piece.1, a + count, n - count);
            BytesRead(entries, behaviours, states, a, n) == (piece.0 + rest.0, rest.1)
  {
    PieceOwned(entries, a, n, count);
    OwnerKnown(entries, |devices|, a);
    var owner := Owner(entries, a);
    hide BytesRead, PieceRead, Owner, Known, Piece, AllByteAddressed, OwnedBy;
    if owner.Some? {
      PieceReadsBytes(devices, behaviours, states, owner.value, a, count);
      ReadOwned(entries, behaviours, states, a, count, n, owner.value);
    } else {
      PieceReadsNone(devices, states, a, count);
      ReadUnowned(entries, behaviours, states, a, count, n);
    }
  }

  lemma PieceThenBytesWritten<S(!new)>(
      entries: seq<Entry>, devices: seq<Device<S>>, behaviours: seq<Behaviour<S>>, states: seq<S>,
      a: nat, count: nat, bytes: seq<Byte>)
    requires |states| == |devices| && Known(entries, |devices|) && AllByteAddressed(devices, behaviours)
    requires Piece(entries, a, |bytes|, count) && |bytes| <= 8
    ensures Owner(entries, a).Some? ==> Owner(entries, a).value < |devices|
    ensures BytesWritten(entries, behaviours, states, a, bytes) ==
            BytesWritten(entries, behaviours, PieceWritten(devices, states, Owner(entries, a), a, bytes[..count]),
                         a + count, bytes[count..])
  {
    PieceOwned(entries, a, |bytes|, count);
    OwnerKnown(entries, |devices|, a);
    var owner := Owner(entries, a);
    hide BytesWritten, PieceWritten, Owner, Known, Piece, AllByteAddressed, OwnedBy;
    if owner.Some? {
      PieceWritesBytes(devices, behaviours, states, owner.value, a, bytes[..count]);
      WriteOwned(entries, behaviours, states, a, bytes, count, owner.value);
    } else {
      PieceWritesNone(devices, states, a, bytes[..count]);
      WriteUnowned(entries, behaviours, states, a, bytes, count);
    }
  }

  lemma NothingLeft<S(!new)>(
      entries: seq<Entry>, devices: seq<Device<S>>, behaviours: seq<Behaviour<S>>, states: seq<S>, a: nat)
    requires |states| == |devices| && Known(entries, |devices|) && AllByteAddressed(devices, behaviours)
    ensures PiecesRead(entries, devices, states, a, 0) == BytesRead(entries, behaviours, states, a, 0)
    ensures PiecesWritten(entries, devices, states, a, []) == BytesWritten(entries, behaviours, states, a, [])
  {}

  /** For byte-addressed devices the pieces add up to reading each byte from its own owner, whatever its side
      effects, with FF where nothing is connected. */
  lemma {:induction false} PiecesReadBytes<S(!new)>(
      entries: seq<Entry>, devices: seq<Device<S>>, behaviours: seq<Behaviour<S>>, states: seq<S>, a: nat, n: nat)
    requires |states| == |devices| && Known(entries, |devices|) && AllByteAddressed(devices, behaviours) && n <= 8
    ensures PiecesRead(entries, devices, states, a, n) == BytesRead(entries, behaviours, states, a, n)
    decreases n
  {
    hide *;
    if n != 0 {
      var count := Longest(entries, a, n, 1);
      ReadPiece(entries, devices, states, a, count, n);
      PieceThenBytesRead(entries, devices, behaviours, states, a, count, n);
      var next := PieceRead(devices, states, Owner(entries, a), a, count).1;
      PiecesReadBytes(entries, devices, behaviours, next, a + count, n - count);
    } else {
      NothingLeft(entries, devices, behaviours, states, a);
    }
  }

  lemma {:induction false} PiecesWriteBytes<S(!new)>(
      entries: seq<Entry>, devices: seq<Device<S>>, behaviours: seq<Behaviour<S>>, states: seq<S>,
      a: nat, bytes: seq<Byte>)
    requires |states| == |devices| && Known(entries, |devices|) && AllByteAddressed(devices, behaviours)
    requires |bytes| <= 8
    ensures PiecesWritten(entries, devices, states, a, bytes) == BytesWritten(entries, behaviours, states, a, bytes)
    decreases |bytes|
  {
    hide *;
    if bytes != [] {
      var count := Longest(entries, a, |bytes|, 1);
      WritePiece(entries, devices, states, a, bytes, count);
      PieceThenBytesWritten(entries, devices, behaviours, states, a, count, bytes);
      var next := PieceWritten(devices, states, Owner(entries, a), a, bytes[..count]);
      PiecesWriteBytes(entries, devices, behaviours, next, a + count, bytes[count..]);
    } else {
      NothingLeft(entries, devices, behaviours, states, a);
    }
  }

  function Pasted(buffer: seq<Byte>, at: nat, part: seq<Byte>): (r: seq<Byte>)
    requires at + |part| <= |buffer|
    ensures |r| == |buffer| && r[..at + |part|] == buffer[..at] + part
    ensures r[at + |part|..] == buffer[at + |part|..]
  {
    buffer[..at] + part + buffer[at + |part|..]
  }

  class IoBus<S(!new)> {
    const connections: seq<Connection>
    const devices: seq<Device<S>>
    var states: seq<S>

    ghost predicate Valid() reads this {
      && |states| == |devices|
      && Known(Flat(connections), |devices|)
      && Disjoint(Ranges(Flat(connections)))
    }

    ghost function Decoded(): seq<Entry> { Flat(connections) }

    /** Connects devices whose ranges pass the construction check. */
    constructor (connections: seq<Connection>, devices: seq<Device<S>>, states: seq<S>)
      requires |states| == |devices| && Known(Flat(connections), |devices|)
      requires Accepted(Ranges(Flat(connections)))
      ensures Valid()
      ensures this.connections == connections && this.devices == devices && this.states == states
    {
      this.connections := connections;
      this.devices := devices;
      this.states := states;
      AcceptedIffDisjoint(Ranges(Flat(connections)));
    }

    /** The longest piece from `address` on that lies in one range or in none, and who owns it. */
    method MmioSpan(address: nat, bytes: nat) returns (device: Option<nat>, count: nat)
      requires Valid() && bytes >= 1
      ensures device == Owner(Decoded(), address)
      ensures Piece(Decoded(), address, bytes, count)
    {
      hide Flat, Entries, Before, Disjoint, Passed;
      count := bytes;
      PassedNone(address, bytes);
      for i := 0 to |connections|
        invariant Passed(Flat(connections[..i]), address, bytes, count)
      {
        var connection := connections[i];
        BeforeIsPrefix(connections, i, 0);
        for j := 0 to |connection.mmio|
          invariant Passed(Before(connections, i, j), address, bytes, count)
        {
          var range := connection.mmio[j];
          BeforeIsPrefix(connections, i, j);
          if range.Has(address) {
            PassedOwned(Decoded(), Before(connections, i, j), Entry(connection.device, range), address, bytes, count);
            count := Min(count, range.end - address + 1);
            return Some(connection.device), count;
          }
          PassedNext(Before(connections, i, j), Entry(connection.device, range), address, bytes, count);
          if range.start > address { count := Min(count, range.start - address); }
        }
        BeforeIsPrefix(connections, i, |connection.mmio|);
      }
      assert connections[..|connections|] == connections;
      PassedAll(Decoded(), address, bytes, count);
      return None, count;
    }

    /** Reads the longest pieces one after another, each from its owner; unconnected bytes are FF. */
    method ReadMmio(address: nat, bytes: nat) returns (value: nat)
      requires Valid() && 1 <= bytes <= 8 && address + bytes <= TWO_32
      modifies this
      ensures Valid()
      ensures var (read, after) := PiecesRead(Decoded(), devices, old(states), address, bytes);
              value == Value(read) && states == after
    {
      hide Piece, Flat, Disjoint, Ranges, Value, Carried, PiecesRead, PieceRead, Pasted, Unconnected, Owner, Known;
      ghost var goal := PiecesRead(Decoded(), devices, states, address, bytes);
      var result, done := Unconnected(8), 0;
      ReadingStarts(goal, result);
      while done < bytes
        invariant done <= bytes && |result| == 8 && Valid()
        invariant Reading(goal, PiecesRead(Decoded(), devices, states, address + done, bytes - done), result, done)
        decreases bytes - done
      {
        var device, count := MmioSpan(address + done, bytes - done);
        ReadPiece(Decoded(), devices, states, address + done, count, bytes - done);
        ghost var rest := PiecesRead(Decoded(), devices, states, address + done, bytes - done);
        ghost var piece := PieceRead(devices, states, device, address + done, count);
        ghost var was := result;
        PieceReadsNone(devices, states, address + done, count);
        if device.Some? {
          PieceReadsSome(devices, states, device.value, address + done, count);
          var (read, next) := devices[device.value].read(states[device.value], address + done, count);
          CarriedPrefix(read, count, 8);
          result := Pasted(result, done, Carried(read, 8)[..count]);
          states := states[device.value := next];
        }
        done := done + count;
        ReadingOn(goal, rest, PiecesRead(Decoded(), devices, states, address + done, bytes - done),
                  was, result, done - count, piece.0);
      }
      PiecesReadNone(Decoded(), devices, states, address + bytes);
      assert goal.0 == result[..bytes] && goal.1 == states;
      result := result[..bytes] + seq(8 - bytes, i => 0);
      ValueZeros(goal.0, seq(8 - bytes, i => 0));
      value := Value(result);
    }

    /** Writes the longest pieces one after another, each to its owner. */
    method WriteMmio(address: nat, bytes: nat, value: nat)
      requires Valid() && 1 <= bytes <= 8 && address + bytes <= TWO_32 && value < TWO_64
      modifies this
      ensures Valid()
      ensures states == PiecesWritten(Decoded(), devices, old(states), address, Carried(value, 8)[..bytes])
    {
      hide Piece, Flat, Disjoint, Value, Carried, PiecesWritten, Owner, Known;
      var carrier, done := Carried(value, 8), 0;
      ghost var goal := PiecesWritten(Decoded(), devices, states, address, carrier[..bytes]);
      while done < bytes
        invariant done <= bytes && Valid()
        invariant goal == PiecesWritten(Decoded(), devices, states, address + done, carrier[done..bytes])
        decreases bytes - done
      {
        var device, count := MmioSpan(address + done, bytes - done);
        WritePiece(Decoded(), devices, states, address + done, carrier[done..bytes], count);
        assert carrier[done..bytes][count..] == carrier[done + count..bytes];
        assert carrier[done..bytes][..count] == carrier[done..done + count];
        if device.Some? {
          var part := carrier[done..done + count];
          var zeros := seq(8 - count, i => 0);
          ValueZeros(part, zeros);
          states := states[device.value := devices[device.value].write(
            states[device.value], address + done, count, Value(part + zeros))];
        }
        done := done + count;
      }
      PiecesWrittenNone(Decoded(), devices, states, address + bytes);
      assert carrier[bytes..bytes] == [];
    }
  }

  // The buffer after one piece: stored where it belongs, or left FF when nothing is connected.
  // What is read so far, and what remains to be read, are the goal.
  ghost predicate Reading<S(!new)>(
      goal: (seq<Byte>, seq<S>), rest: (seq<Byte>, seq<S>), result: seq<Byte>, done: nat)
  {
    && done <= |result| && result[done..] == Unconnected(|result| - done)
    && goal == (result[..done] + rest.0, rest.1)
  }

  lemma ReadingStarts<S(!new)>(goal: (seq<Byte>, seq<S>), result: seq<Byte>)
    requires result == Unconnected(|result|)
    ensures Reading(goal, goal, result, 0)
  {
    assert result[0..] == result && result[..0] + goal.0 == goal.0;
  }

  lemma ReadingOn<S(!new)>(
      goal: (seq<Byte>, seq<S>), rest: (seq<Byte>, seq<S>), left: (seq<Byte>, seq<S>),
      before: seq<Byte>, after: seq<Byte>, done: nat, piece: seq<Byte>)
    requires Reading(goal, rest, before, done) && rest == (piece + left.0, left.1)
    requires |before| == |after| && done + |piece| <= |before|
    requires (after == before && piece == Unconnected(|piece|)) || after == Pasted(before, done, piece)
    ensures Reading(goal, left, after, done + |piece|)
  {
    hide Unconnected, Pasted;
    PieceStored(before, after, done, piece);
    assert before[..done] + (piece + left.0) == (before[..done] + piece) + left.0;
  }

  lemma PieceStored(before: seq<Byte>, after: seq<Byte>, done: nat, piece: seq<Byte>)
    requires |before| == |after| && done + |piece| <= |before|
    requires before[done..] == Unconnected(|before| - done)
    requires (after == before && piece == Unconnected(|piece|)) || after == Pasted(before, done, piece)
    ensures after[..done + |piece|] == before[..done] + piece
    ensures after[done + |piece|..] == Unconnected(|before| - done - |piece|)
  {
    assert before[done + |piece|..] == before[done..][|piece|..];
    if after == before {
      assert after[done..done + |piece|] == before[done..][..|piece|];
    }
  }

  lemma PiecesReadNone<S(!new)>(entries: seq<Entry>, devices: seq<Device<S>>, states: seq<S>, a: nat)
    requires |states| == |devices| && Known(entries, |devices|)
    ensures PiecesRead(entries, devices, states, a, 0) == ([], states)
  {}

  lemma PiecesWrittenNone<S(!new)>(entries: seq<Entry>, devices: seq<Device<S>>, states: seq<S>, a: nat)
    requires |states| == |devices| && Known(entries, |devices|)
    ensures PiecesWritten(entries, devices, states, a, []) == states
  {}

  lemma {:induction false} CarriedPrefix(value: nat, n: nat, m: nat)
    requires n <= m
    ensures Carried(value, m)[..n] == Carried(value, n)
    decreases n
  {
    if n > 0 { CarriedPrefix(value / 0x100, n - 1, m - 1); }
  }

  // ----- narrowing a piece while going through the ranges

  ghost predicate Passed(entries: seq<Entry>, a: nat, bytes: nat, count: nat) {
    && 1 <= count <= bytes
    && (forall k | 0 <= k < |entries| ::
          !entries[k].range.Has(a) && (entries[k].range.start > a ==> a + count <= entries[k].range.start))
    && (count == bytes || exists k :: 0 <= k < |entries| && entries[k].range.start == a + count)
  }

  lemma PassedNone(a: nat, bytes: nat)
    requires bytes >= 1
    ensures Passed([], a, bytes, bytes)
    ensures forall connections: seq<Connection> :: Flat(connections[..0]) == []
  {}

  lemma PassedNext(entries: seq<Entry>, e: Entry, a: nat, bytes: nat, count: nat)
    requires Passed(entries, a, bytes, count) && !e.range.Has(a)
    ensures Passed(entries + [e], a, bytes, if e.range.start > a then Min(count, e.range.start - a) else count)
  {
    var all := entries + [e];
    assert all[|entries|] == e;
    if k :| 0 <= k < |entries| && entries[k].range.start == a + count {
      assert all[k].range.start == a + count;
    }
  }

  // Ranges beyond the one that owns the address narrow nothing.
  lemma PassedOwned(all: seq<Entry>, before: seq<Entry>, e: Entry, a: nat, bytes: nat, count: nat)
    requires Disjoint(Ranges(all)) && before + [e] <= all
    requires Passed(before, a, bytes, count) && e.range.Has(a)
    ensures Hit(all, a) == Some(e) && Piece(all, a, bytes, Min(count, e.range.end - a + 1))
  {
    var k := |before|;
    assert all[k] == e && (forall i | 0 <= i < k :: all[i] == before[i]);
    if count < bytes {
      var i :| 0 <= i < |before| && before[i].range.start == a + count;
      assert Ranges(all)[i] == before[i].range && Ranges(all)[k] == e.range;
    }
    OwnedPiece(all, k, a, bytes, Min(bytes, e.range.end - a + 1));
  }

  lemma PassedAll(all: seq<Entry>, a: nat, bytes: nat, count: nat)
    requires Disjoint(Ranges(all)) && Passed(all, a, bytes, count)
    ensures Hit(all, a).None? && Piece(all, a, bytes, count)
  {
    FreePiece(all, a, bytes, count);
  }
}
