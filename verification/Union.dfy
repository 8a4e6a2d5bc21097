/** Overlapped enum payloads of crates/wasm-bindings: every variant shares one layout of widened slots. */
module UnionLayouts {
  import opened Machine

  // Logical scalars; a value is the bit pattern of its native carrier.
  datatype Kind = I1 | I8 | I16 | I32 | I64 | F32 | F64

  type Layout = seq<Kind>

  type Values = seq<nat>

  predicate Wide(k: Kind) { k == I64 || k == F64 }

  function Size(k: Kind): nat { if Wide(k) then TWO_64 else TWO_32 }

  predicate Integer(k: Kind) { k != F32 && k != F64 }

  // Integers from narrow to wide, and where a float stands among them once it shares a slot.
  function Rank(k: Kind): (r: nat)
    ensures r <= 4
  {
    match k case I1 => 0 case I8 => 1 case I16 => 2 case I32 => 3 case I64 => 4 case F32 => 3 case F64 => 4
  }

  function Ranked(rank: nat): Kind {
    if rank == 0 then I1 else if rank == 1 then I8 else if rank == 2 then I16 else if rank == 3 then I32 else I64
  }

  function Higher(a: nat, b: nat): nat { if a < b then b else a }

  /** The kind two variants share a slot as: unequal kinds meet as the wider integer. */
  function Widen(a: Kind, b: Kind): Kind {
    if a == b then a else Ranked(Higher(Rank(a), Rank(b)))
  }

  // The conversions that exist between slots.
  predicate Castable(a: Kind, b: Kind) {
    || a == b
    || (Integer(a) && Integer(b))
    || (a == F64 && b == I64) || (a == I64 && b == F64)
    || (a == F32 && (b == I32 || b == I64)) || ((a == I32 || a == I64) && b == F32)
  }

  // Widening fills with zeros and narrowing keeps the low half; floats keep their bits.
  function Cast(a: Kind, b: Kind, value: nat): (r: nat)
    requires Castable(a, b) && value < Size(a)
    ensures r < Size(b)
  {
    if Size(b) < Size(a) then value % TWO_32 else value
  }

  lemma WidenLaws(a: Kind, b: Kind)
    ensures Widen(a, b) == Widen(b, a) && Widen(a, a) == a
    ensures Size(Widen(a, b)) == if Size(a) < Size(b) then Size(b) else Size(a)
  {}

  lemma WidenRank(a: Kind, b: Kind)
    ensures Rank(Widen(a, b)) == Higher(Rank(a), Rank(b))
    ensures a != b ==> Integer(Widen(a, b))
    ensures a == b ==> Widen(a, b) == a
    ensures a != b || Integer(a) ==> Widen(a, b) == Ranked(Higher(Rank(a), Rank(b)))
  {}

  lemma WidenAssociates(a: Kind, b: Kind, c: Kind)
    ensures Widen(Widen(a, b), c) == Widen(a, Widen(b, c))
  {
    if !(a == b == c) {
      WidenRank(a, b);
      WidenRank(b, c);
      WidenRank(Widen(a, b), c);
      WidenRank(a, Widen(b, c));
      HigherAssociates(Rank(a), Rank(b), Rank(c));
    }
  }

  lemma HigherAssociates(a: nat, b: nat, c: nat)
    ensures Higher(Higher(a, b), c) == Higher(a, Higher(b, c))
  {}

  /** The shared kind of each pair: the wider of two integers, a 32-bit integer for a narrow integer and a 32-bit
      float, and a 64-bit integer wherever 64 bits meet a float or a float meets another. */
  lemma WidenTable(a: Kind, b: Kind)
    ensures Widen(I1, I8) == I8 && Widen(I1, I16) == I16 && Widen(I1, I32) == I32 && Widen(I1, I64) == I64
    ensures Widen(I8, I16) == I16 && Widen(I8, I32) == I32 && Widen(I8, I64) == I64
    ensures Widen(I16, I32) == I32 && Widen(I16, I64) == I64 && Widen(I32, I64) == I64
    ensures Integer(a) && a != I64 ==> Widen(a, F32) == I32
    ensures Integer(a) ==> Widen(a, F64) == I64
    ensures Widen(I64, F32) == I64 && Widen(F32, F64) == I64
    ensures Widen(a, a) == a && Widen(b, a) == Widen(a, b)
  {}

  /** Widening keeps the bits and fills with zeros, and narrowing keeps the low 32 bits; floats keep theirs. */
  lemma CastBits(a: Kind, b: Kind, value: nat)
    requires Castable(a, b) && value < Size(a)
    ensures value < 0x1_0000_0000 ==> Cast(a, b, value) == value
    ensures Cast(a, b, value) == if (a == I64 || a == F64) && b != I64 && b != F64 then value % 0x1_0000_0000 else value
    ensures Size(I64) == Size(F64) == 0x1_0000_0000_0000_0000 && Size(I1) == Size(I32) == Size(F32) == 0x1_0000_0000
  {}

  /** A slot survives being widened and narrowed again. */
  lemma SlotRoundTrip(a: Kind, b: Kind, value: nat)
    requires Widen(a, b) == b && value < Size(a)
    ensures Castable(a, b) && Castable(b, a)
    ensures Cast(b, a, Cast(a, b, value)) == value
  {}

  // ----- layouts

  function Join(a: Layout, b: Layout): Layout {
    if a == [] then b
    else if b == [] then a
    else [Widen(a[0], b[0])] + Join(a[1..], b[1..])
  }

  /** `a` has a place in `b`: joining it adds nothing. */
  predicate Below(a: Layout, b: Layout) { Join(a, b) == b }

  // The layout all variants share.
  function Shared(variants: seq<Layout>): Layout {
    if variants == [] then [] else Join(variants[0], Shared(variants[1..]))
  }

  lemma {:induction false} JoinCommutes(a: Layout, b: Layout)
    ensures Join(a, b) == Join(b, a)
    decreases |a|
  {
    if a != [] && b != [] {
      WidenLaws(a[0], b[0]);
      JoinCommutes(a[1..], b[1..]);
    }
  }

  lemma {:induction false} JoinIdempotent(a: Layout)
    ensures Join(a, a) == a
    decreases |a|
  {
    if a != [] { JoinIdempotent(a[1..]); }
  }

  lemma {:induction false} JoinAssociates(a: Layout, b: Layout, c: Layout)
    ensures Join(Join(a, b), c) == Join(a, Join(b, c))
    decreases |a|
  {
    if a != [] && b != [] && c != [] {
      WidenAssociates(a[0], b[0], c[0]);
      JoinAssociates(a[1..], b[1..], c[1..]);
      assert Join(a, b)[1..] == Join(a[1..], b[1..]) && Join(b, c)[1..] == Join(b[1..], c[1..]);
    }
  }

  lemma {:induction false} JoinSlots(a: Layout, b: Layout)
    ensures |Join(a, b)| == if |a| < |b| then |b| else |a|
    ensures forall i | 0 <= i < |Join(a, b)| ::
              Join(a, b)[i] == if i >= |a| then b[i] else if i >= |b| then a[i] else Widen(a[i], b[i])
    decreases |a|
  {
    if a != [] && b != [] {
      JoinSlots(a[1..], b[1..]);
      forall i | 0 <= i < |Join(a, b)|
        ensures Join(a, b)[i] == if i >= |a| then b[i] else if i >= |b| then a[i] else Widen(a[i], b[i])
      {
        if i > 0 { assert Join(a, b)[i] == Join(a[1..], b[1..])[i - 1]; }
      }
    }
  }

  /** Grouping variants differently shares the same layout. */
  lemma {:induction false} SharedGroups(left: seq<Layout>, right: seq<Layout>)
    ensures Shared(left + right) == Join(Shared(left), Shared(right))
    decreases |left|
  {
    if left == [] {
      assert left + right == right;
    } else {
      assert (left + right)[1..] == left[1..] + right;
      SharedGroups(left[1..], right);
      JoinAssociates(left[0], Shared(left[1..]), Shared(right));
    }
  }

  // Any variant may come first.
  lemma SharedFirst(variants: seq<Layout>, k: nat)
    requires k < |variants|
    ensures Shared(variants) == Join(variants[k], Shared(variants[..k] + variants[k + 1..]))
  {
    hide Join;
    var left, v, right := variants[..k], variants[k], variants[k + 1..];
    AroundOne(variants, k);
    SharedGroups(left, [v] + right);
    SharedGroups(left, right);
    JoinSwaps(Shared(left), v, Shared(right));
  }

  lemma AroundOne(variants: seq<Layout>, k: nat)
    requires k < |variants|
    ensures variants == variants[..k] + ([variants[k]] + variants[k + 1..])
    ensures ([variants[k]] + variants[k + 1..])[1..] == variants[k + 1..]
  {}

  lemma JoinSwaps(left: Layout, v: Layout, right: Layout)
    ensures Join(left, Join(v, right)) == Join(v, Join(left, right))
  {
    hide Join;
    JoinAssociates(left, v, right);
    JoinCommutes(left, v);
    JoinAssociates(v, left, right);
  }

  lemma WithoutOne(variants: seq<Layout>, k: nat)
    requires k < |variants|
    ensures multiset(variants[..k] + variants[k + 1..]) == multiset(variants) - multiset{variants[k]}
  {
    assert variants == variants[..k] + [variants[k]] + variants[k + 1..];
  }

  /** The order of the variants does not matter. */
  lemma {:induction false} SharedOrder(a: seq<Layout>, b: seq<Layout>)
    requires multiset(a) == multiset(b)
    ensures Shared(a) == Shared(b)
    decreases |a|
  {
    hide Join;
    assert |a| == |multiset(a)| == |multiset(b)| == |b|;
    if a != [] {
      assert a[0] in multiset(b);
      var k :| 0 <= k < |b| && b[k] == a[0];
      WithoutOne(a, 0);
      assert a[..0] + a[1..] == a[1..];
      WithoutOne(b, k);
      SharedOrder(a[1..], b[..k] + b[k + 1..]);
      SharedFirst(b, k);
    }
  }

  /** The shared layout holds every variant, and is the least that does. */
  lemma SharedHolds(variants: seq<Layout>, k: nat)
    requires k < |variants|
    ensures Below(variants[k], Shared(variants))
  {
    var rest := Shared(variants[..k] + variants[k + 1..]);
    SharedFirst(variants, k);
    JoinAssociates(variants[k], variants[k], rest);
    JoinIdempotent(variants[k]);
  }

  lemma {:induction false} SharedLeast(variants: seq<Layout>, bound: Layout)
    requires forall v <- variants :: Below(v, bound)
    ensures Below(Shared(variants), bound)
    decreases |variants|
  {
    if variants != [] {
      SharedLeast(variants[1..], bound);
      JoinAssociates(variants[0], Shared(variants[1..]), bound);
      assert variants[0] in variants;
    }
  }

  lemma {:induction false} SharedLength(variants: seq<Layout>)
    ensures forall v <- variants :: |v| <= |Shared(variants)|
    ensures variants != [] ==> exists v <- variants :: |v| == |Shared(variants)|
    decreases |variants|
  {
    if variants != [] {
      SharedLength(variants[1..]);
      JoinSlots(variants[0], Shared(variants[1..]));
      assert variants[0] in variants;
      if |variants| > 1 {
        var v :| v in variants[1..] && |v| == |Shared(variants[1..])|;
        assert v in variants;
      }
    }
  }

  // ----- values

  predicate Fits(values: Values, layout: Layout) {
    |values| == |layout| && forall i | 0 <= i < |values| :: values[i] < Size(layout[i])
  }

  predicate Projectable(a: Layout, b: Layout) {
    forall i | 0 <= i < |a| && i < |b| :: Castable(a[i], b[i])
  }

  /** Converts slot by slot; zeros fill a longer layout, and a shorter one keeps its front. */
  function Project(a: Layout, b: Layout, values: Values): (r: Values)
    requires Projectable(a, b) && Fits(values, a)
    ensures Fits(r, b)
  {
    if b == [] then []
    else if a == [] then [0] + Project([], b[1..], [])
    else [Cast(a[0], b[0], values[0])] + Project(a[1..], b[1..], values[1..])
  }

  /** Slot by slot: each value is converted on its own, and a slot the variant does not have is zero. */
  lemma {:induction false} ProjectSlots(a: Layout, b: Layout, values: Values, i: nat)
    requires Projectable(a, b) && Fits(values, a) && i < |b|
    ensures i < |Project(a, b, values)|
    ensures Project(a, b, values)[i] == if i < |a| then Cast(a[i], b[i], values[i]) else 0
    decreases i
  {
    if i > 0 {
      if a == [] { ProjectSlots([], b[1..], [], i - 1); }
      else { ProjectSlots(a[1..], b[1..], values[1..], i - 1); }
    }
  }

  lemma BelowSlots(a: Layout, b: Layout)
    requires Below(a, b)
    ensures |a| <= |b| && forall i | 0 <= i < |a| :: Widen(a[i], b[i]) == b[i]
    ensures Projectable(a, b) && Projectable(b, a)
  {
    JoinSlots(a, b);
    forall i | 0 <= i < |a| ensures Widen(a[i], b[i]) == b[i] && Castable(a[i], b[i]) && Castable(b[i], a[i]) {
      assert Join(a, b)[i] == b[i];
      SlotRoundTrip(a[i], b[i], 0);
    }
  }

  /** Values placed in a layout that has room for them come back unchanged. */
  lemma {:induction false} ProjectReturns(a: Layout, b: Layout, values: Values)
    requires Below(a, b) && Fits(values, a)
    ensures Projectable(a, b) && Projectable(b, a)
    ensures Project(b, a, Project(a, b, values)) == values
    decreases |a|
  {
    BelowSlots(a, b);
    if a != [] {
      assert Join(a, b)[1..] == Join(a[1..], b[1..]);
      ProjectReturns(a[1..], b[1..], values[1..]);
      SlotRoundTrip(a[0], b[0], values[0]);
      var there := Project(a, b, values);
      assert there[1..] == Project(a[1..], b[1..], values[1..]);
    }
  }

  /** Any variant's values survive the shared payload, bit for bit. */
  lemma VariantReturns(variants: seq<Layout>, k: nat, values: Values)
    requires k < |variants| && Fits(values, variants[k])
    ensures Projectable(variants[k], Shared(variants)) && Projectable(Shared(variants), variants[k])
    ensures Project(Shared(variants), variants[k], Project(variants[k], Shared(variants), values)) == values
  {
    SharedHolds(variants, k);
    ProjectReturns(variants[k], Shared(variants), values);
  }

  // ----- concatenated fields

  function Concat(left: Values, right: Values): Values {
    if left == [] then right else [left[0]] + Concat(left[1..], right)
  }

  // `left` is the layout of the fields in front.
  function Split(left: Layout, values: Values): (Values, Values)
    requires |left| <= |values|
  {
    if left == [] then ([], values)
    else
      var (tail, right) := Split(left[1..], values[1..]);
      ([values[0]] + tail, right)
  }

  /** Splitting undoes concatenation. */
  lemma {:induction false} SplitConcat(left: Layout, a: Values, b: Values)
    requires |a| == |left|
    ensures |Concat(a, b)| == |a| + |b| && Split(left, Concat(a, b)) == (a, b)
    decreases |left|
  {
    if left != [] {
      SplitConcat(left[1..], a[1..], b);
      assert Concat(a, b)[1..] == Concat(a[1..], b);
      assert a == [a[0]] + a[1..];
    }
  }

  /** And concatenation undoes splitting. */
  lemma {:induction false} ConcatSplit(left: Layout, right: Layout, values: Values)
    requires Fits(values, left + right)
    ensures var (a, b) := Split(left, values); Fits(a, left) && Fits(b, right) && Concat(a, b) == values
    decreases |left|
  {
    if left == [] {
      assert left + right == right;
    } else {
      assert (left + right)[1..] == left[1..] + right;
      forall i | 0 <= i < |values[1..]| ensures values[1..][i] < Size((left[1..] + right)[i]) {
        assert (left + right)[i + 1] == (left[1..] + right)[i];
      }
      ConcatSplit(left[1..], right, values[1..]);
      var (a, b) := Split(left, values);
      assert a[1..] == Split(left[1..], values[1..]).0;
      assert values[0] < Size((left + right)[0]);
    }
  }
}
