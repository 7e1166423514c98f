/** dynamicbitmask: a growing array of bits with an allocator for single bits. */
module Bitmask {
  import opened Bits
  import opened Text

  /** A byte index and a mask, normally with one bit, as in std::pair<size_t, unsigned char>. */
  datatype Bitfield = Bitfield(first: nat, second: bv8)

  /** The values and the reservations, byte by byte. */
  datatype Mask = Mask(bits: seq<bv8>, free: seq<bv8>)

  const MAX_SIZE: nat := 255

  ghost predicate Sound(m: Mask) {
    |m.bits| == |m.free| && 0 < |m.bits| <= MAX_SIZE
  }

  predicate IsBit(p: bv8) {
    p == 1 || p == 2 || p == 4 || p == 8 || p == 16 || p == 32 || p == 64 || p == 128
  }

  function BitOf(k: nat): (p: bv8)
    requires k < 8
    ensures IsBit(p)
  {
    if k == 0 then 1 else if k == 1 then 2 else if k == 2 then 4 else if k == 3 then 8
    else if k == 4 then 16 else if k == 5 then 32 else if k == 6 then 64 else 128
  }

  function SetBit(x: bv8, p: bv8): bv8 { x | p }

  function DropBit(x: bv8, p: bv8): bv8 { x & !p }

  predicate Reserved(m: Mask, b: Bitfield) {
    b.first < |m.free| && HasBit(m.free[b.first], b.second)
  }

  predicate Value(m: Mask, b: Bitfield) {
    b.first < |m.bits| && HasBit(m.bits[b.first], b.second)
  }

  // ---------- the operations on values ----------

  /** Index of the lowest clear bit of a byte, 8 when there is none. */
  function ClearBit(x: bv8, k: nat): (r: nat)
    requires k <= 8
    ensures k <= r <= 8
    ensures forall j :: k <= j < r ==> HasBit(x, BitOf(j))
    ensures r < 8 ==> !HasBit(x, BitOf(r))
    decreases 8 - k
  {
    if k == 8 then 8 else if !HasBit(x, BitOf(k)) then k else ClearBit(x, k + 1)
  }

  /** The first unreserved bit at or behind byte i. */
  function FirstFree(free: seq<bv8>, i: nat): (r: Option<Bitfield>)
    requires i <= |free|
    ensures r.Some? ==> i <= r.value.first < |free| && IsBit(r.value.second)
                        && !HasBit(free[r.value.first], r.value.second)
    decreases |free| - i
  {
    if i == |free| then None
    else
      var k := ClearBit(free[i], 0);
      if k < 8 then Some(Bitfield(i, BitOf(k))) else FirstFree(free, i + 1)
  }

  /** What Allocate hands out: a free bit, a bit of a new byte, or nothing (bad_alloc). */
  function Allocated(m: Mask): Option<Bitfield> {
    if FirstFree(m.free, 0).Some? then FirstFree(m.free, 0)
    else if |m.free| < MAX_SIZE then Some(Bitfield(|m.free|, 1))
    else None
  }

  datatype Op = Allocate | Deallocate(pos: Bitfield) | Toggle(pos: Bitfield, state: bool)

  function Apply(m: Mask, op: Op): (r: Mask)
    ensures Sound(m) ==> Sound(r) && |m.bits| <= |r.bits|
  {
    match op
    case Allocate =>
      (match FirstFree(m.free, 0)
       case Some(b) => m.(free := m.free[b.first := SetBit(m.free[b.first], b.second)])
       case None =>
         if |m.free| < MAX_SIZE then Mask(m.bits + [0], m.free + [1]) else m)
    case Deallocate(b) =>
      if b.first < |m.free| then m.(free := m.free[b.first := DropBit(m.free[b.first], b.second)]) else m
    case Toggle(b, state) =>
      if b.first < |m.bits| then
        var byte := m.bits[b.first];
        m.(bits := m.bits[b.first := if state then SetBit(byte, b.second) else DropBit(byte, b.second)])
      else m
  }

  function Run(m: Mask, ops: seq<Op>): Mask
    decreases |ops|
  {
    if ops == [] then m else Run(Apply(m, ops[0]), ops[1..])
  }

  // ---------- facts about bytes ----------

  lemma DistinctBits(p: bv8, q: bv8)
    requires IsBit(p) && IsBit(q) && p != q
    ensures p & q == 0
  {
  }

  lemma SetBitHas(x: bv8, p: bv8, q: bv8)
    requires IsBit(p) && IsBit(q)
    ensures HasBit(SetBit(x, p), q) <==> p == q || HasBit(x, q)
    ensures HasBit(DropBit(x, p), q) <==> p != q && HasBit(x, q)
    ensures !HasBit(0, q) && (HasBit(1, q) <==> q == 1) && IsBit(1)
  {
  }

  lemma BitIsBitOf(p: bv8) returns (k: nat)
    requires IsBit(p)
    ensures k < 8 && BitOf(k) == p
  {
    k := if p == 1 then 0 else if p == 2 then 1 else if p == 4 then 2 else if p == 8 then 3
         else if p == 16 then 4 else if p == 32 then 5 else if p == 64 then 6 else 7;
  }

  // ---------- what the operations do to the fields ----------

  /** One-bit fields that differ share no bit. */
  lemma FieldsAreDisjoint(b: Bitfield, c: Bitfield)
    requires IsBit(b.second) && IsBit(c.second) && b != c
    ensures b.first != c.first || b.second & c.second == 0
  {
    if b.first == c.first { DistinctBits(b.second, c.second); }
  }

  /** Allocate reserves exactly one bit that was free, and leaves every other reservation
      and every stored value as it was, also when the arrays grow. */
  lemma AllocateReservesOne(m: Mask, c: Bitfield)
    requires Sound(m) && Allocated(m).Some? && IsBit(c.second)
    ensures var b := Allocated(m).value; var r := Apply(m, Allocate);
            && IsBit(b.second) && !Reserved(m, b) && Reserved(r, b)
            && (c != b ==> (Reserved(r, c) <==> Reserved(m, c)))
            && (Value(r, c) <==> Value(m, c))
  {
    hide IsBit, FirstFree, ClearBit, HasBit, SetBit, DropBit;
    var b := Allocated(m).value;
    SetBitHas(0, c.second, c.second);
    if FirstFree(m.free, 0).Some? {
      SetBitHas(m.free[b.first], b.second, c.second);
      SetBitHas(m.free[b.first], b.second, b.second);
    } else {
      SetBitHas(0, 1, 1);
    }
  }

  lemma {:induction false} NoneFree(free: seq<bv8>, i: nat)
    requires i <= |free|
    ensures FirstFree(free, i) == None <==>
              forall j, k :: i <= j < |free| && 0 <= k < 8 ==> HasBit(free[j], BitOf(k))
    decreases |free| - i
  {
    hide BitOf, HasBit, ClearBit;
    if i < |free| {
      NoneFree(free, i + 1);
      var k := ClearBit(free[i], 0);
      if k < 8 { assert !HasBit(free[i], BitOf(k)); }
    }
  }

  /** Allocate fails exactly when all 255 bytes are in use and every bit of them is reserved. */
  lemma AllocateFailsIff(m: Mask)
    requires Sound(m)
    ensures Allocated(m) == None <==>
              |m.free| == MAX_SIZE && forall b: Bitfield :: b.first < |m.free| && IsBit(b.second) ==> Reserved(m, b)
  {
    hide BitOf, IsBit, ClearBit, HasBit;
    NoneFree(m.free, 0);
    if Allocated(m) == None {
      forall b: Bitfield | b.first < |m.free| && IsBit(b.second) ensures Reserved(m, b) {
        var k := BitIsBitOf(b.second);
        assert HasBit(m.free[b.first], BitOf(k));
      }
    }
    if forall b: Bitfield :: b.first < |m.free| && IsBit(b.second) ==> Reserved(m, b) {
      forall j, k | 0 <= j < |m.free| && 0 <= k < 8 ensures HasBit(m.free[j], BitOf(k)) {
        assert Reserved(m, Bitfield(j, BitOf(k)));
      }
    }
  }

  /** Deallocate releases its field, touches no other reservation and no value: a bit that is
      handed out again still holds what was stored in it. */
  lemma DeallocateReleasesOne(m: Mask, b: Bitfield, c: Bitfield)
    requires Sound(m) && IsBit(b.second) && IsBit(c.second)
    ensures var r := Apply(m, Deallocate(b));
            && !Reserved(r, b)
            && (c != b ==> (Reserved(r, c) <==> Reserved(m, c)))
            && r.bits == m.bits
  {
    hide IsBit, HasBit, SetBit, DropBit;
    if b.first < |m.free| {
      SetBitHas(m.free[b.first], b.second, b.second);
      SetBitHas(m.free[b.first], b.second, c.second);
    }
  }

  /** Toggle stores the state in its field and changes no other value and no reservation. */
  lemma ToggleChangesOne(m: Mask, b: Bitfield, state: bool, c: Bitfield)
    requires Sound(m) && IsBit(b.second) && IsBit(c.second)
    ensures var r := Apply(m, Toggle(b, state));
            && (b.first < |m.bits| ==> (Value(r, b) <==> state))
            && (c != b ==> (Value(r, c) <==> Value(m, c)))
            && r.free == m.free
  {
    hide IsBit, HasBit, SetBit, DropBit;
    if b.first < |m.bits| {
      SetBitHas(m.bits[b.first], b.second, b.second);
      SetBitHas(m.bits[b.first], b.second, c.second);
    }
  }

  /** The operation concerns other fields than c only. */
  predicate Elsewhere(op: Op, c: Bitfield) {
    match op
    case Allocate => true
    case Deallocate(b) => IsBit(b.second) && b != c
    case Toggle(b, _) => IsBit(b.second) && b != c
  }

  lemma StepElsewhere(m: Mask, op: Op, c: Bitfield)
    requires Sound(m) && IsBit(c.second) && Reserved(m, c) && Elsewhere(op, c)
    ensures Reserved(Apply(m, op), c) && (Value(Apply(m, op), c) <==> Value(m, c))
    ensures op == Allocate ==> Allocated(m) != Some(c)
  {
    match op {
      case Allocate => if Allocated(m).Some? { AllocateReservesOne(m, c); }
      case Deallocate(b) => DeallocateReleasesOne(m, b, c);
      case Toggle(b, state) => ToggleChangesOne(m, b, state, c);
    }
  }

  /** Over any sequence of operations on other fields, growth included, a reserved field
      stays reserved, keeps its value, and is never handed out a second time. */
  lemma {:induction false} ReservedFieldIsPrivate(m: Mask, ops: seq<Op>, c: Bitfield)
    requires Sound(m) && IsBit(c.second) && Reserved(m, c)
    requires forall i :: 0 <= i < |ops| ==> Elsewhere(ops[i], c)
    ensures Reserved(Run(m, ops), c) && (Value(Run(m, ops), c) <==> Value(m, c))
    ensures forall i :: 0 <= i < |ops| && ops[i] == Allocate ==> Allocated(Run(m, ops[..i])) != Some(c)
    decreases |ops|
  {
    hide Apply, Allocated, Elsewhere, Reserved, Value, IsBit;
    if ops != [] {
      var m1 := Apply(m, ops[0]);
      StepElsewhere(m, ops[0], c);
      ReservedFieldIsPrivate(m1, ops[1..], c);
      forall i | 0 <= i < |ops| && ops[i] == Allocate ensures Allocated(Run(m, ops[..i])) != Some(c) {
        if i > 0 {
          assert ops[..i][1..] == ops[1..][..i - 1] && ops[..i][0] == ops[0];
          assert ops[1..][i - 1] == Allocate;
        } else {
          assert ops[..0] == [];
        }
      }
    }
  }

  // ---------- the class ----------

  class DynamicBitmask {
    var bits: array<bv8>
    var freebits: array<bv8>
    var bitsSize: nat

    ghost predicate Valid()
      reads this, bits, freebits
    {
      bits.Length == freebits.Length == bitsSize && bits != freebits && Sound(Contents())
    }

    ghost function Contents(): Mask
      reads this, bits, freebits
    {
      Mask(bits[..], freebits[..])
    }

    constructor ()
      ensures Valid() && fresh(bits) && fresh(freebits)
      ensures Contents() == Mask([0, 0, 0, 0], [0, 0, 0, 0])
    {
      bitsSize := 4;
      bits := new bv8[4](_ => 0);
      freebits := new bv8[4](_ => 0);
    }

    method Allocate() returns (r: Option<Bitfield>)
      requires Valid()
      modifies this, freebits
      ensures Valid() && (bits == old(bits) || fresh(bits)) && (freebits == old(freebits) || fresh(freebits))
      ensures r == Allocated(old(Contents())) && Contents() == Apply(old(Contents()), Op.Allocate)
    {
      hide IsBit, HasBit, SetBit, FirstFree, BitOf, ClearBit;
      for i := 0 to bitsSize
        invariant bitsSize == old(bitsSize) && bits == old(bits) && freebits == old(freebits)
        invariant Contents() == old(Contents()) && Valid()
        invariant FirstFree(freebits[..], 0) == FirstFree(freebits[..], i)
      {
        FirstFreeStep(freebits[..], i);
        var currentPos := LowestClear(freebits[i]);
        if currentPos != 0 {
          freebits[i] := SetBit(freebits[i], currentPos);
          return Some(Bitfield(i, currentPos));
        }
      }
      FirstFreeEnd(freebits[..]);
      if bitsSize == MAX_SIZE { return None; }
      r := Grow();
    }

    /** Lines 268-294 of Allocate. */
    method Grow() returns (r: Option<Bitfield>)
      requires Valid() && bitsSize < MAX_SIZE
      modifies this
      ensures Valid() && fresh(bits) && fresh(freebits)
      ensures Contents() == Mask(old(bits[..]) + [0], old(freebits[..]) + [1])
      ensures r == Some(Bitfield(old(bitsSize), 1))
    {
      var oldBitsSize := bitsSize;
      bitsSize := bitsSize + 1;
      var tempBits := new bv8[bitsSize];
      var tempFreebits := new bv8[bitsSize];
      forall k | 0 <= k < oldBitsSize { tempBits[k] := bits[k]; }
      forall k | 0 <= k < oldBitsSize { tempFreebits[k] := freebits[k]; }
      bits := tempBits;
      freebits := tempFreebits;
      bits[oldBitsSize] := 0;
      freebits[oldBitsSize] := 1;
      assert bits[..] == old(bits[..]) + [0] && freebits[..] == old(freebits[..]) + [1];
      return Some(Bitfield(oldBitsSize, 1));
    }

    method Deallocate(pos: Bitfield) returns (ok: bool)
      requires Valid()
      modifies freebits
      ensures Valid() && ok == (pos.first < bitsSize)
      ensures Contents() == Apply(old(Contents()), Op.Deallocate(pos))
    {
      hide SetBit, DropBit;
      if pos.first < bitsSize {
        freebits[pos.first] := DropBit(freebits[pos.first], pos.second);
        return true;
      }
      return false;
    }

    method Toggle(pos: Bitfield, state: bool)
      requires Valid()
      modifies bits
      ensures Valid() && Contents() == Apply(old(Contents()), Op.Toggle(pos, state))
    {
      hide SetBit, DropBit;
      if pos.first < bitsSize {
        if state {
          bits[pos.first] := SetBit(bits[pos.first], pos.second);
        } else {
          bits[pos.first] := DropBit(bits[pos.first], pos.second);
        }
      }
    }

    /** None stands for the ModuleException of an index out of range. */
    method Get(pos: Bitfield) returns (r: Option<bool>)
      requires Valid()
      ensures r == if pos.first < bitsSize then Some(Value(Contents(), pos)) else None
    {
      if pos.first < bitsSize {
        r := Some(HasBit(bits[pos.first], pos.second));
      } else {
        r := None;
      }
    }
  }

  lemma FirstFreeStep(free: seq<bv8>, i: nat)
    requires i < |free|
    ensures var k := ClearBit(free[i], 0);
            FirstFree(free, i) == if k < 8 then Some(Bitfield(i, BitOf(k))) else FirstFree(free, i + 1)
  {
  }

  lemma FirstFreeEnd(free: seq<bv8>)
    ensures FirstFree(free, |free|) == None
  {
  }

  lemma ShiftBit(k: nat)
    requires k < 8
    ensures BitOf(k) << 1 == (if k == 7 then 0 else BitOf(k + 1)) && BitOf(k) != 0
  {
  }

  /** The inner loop of Allocate: shifts the bit until it finds one that is clear, or until
      it is shifted out of the byte. */
  method LowestClear(x: bv8) returns (pos: bv8)
    ensures ClearBit(x, 0) == 8 ==> pos == 0
    ensures ClearBit(x, 0) < 8 ==> pos == BitOf(ClearBit(x, 0)) && pos != 0
  {
    hide IsBit, BitOf, HasBit;
    pos := 1;
    ghost var k := 0;
    FirstBit();
    while pos != 0
      invariant k <= 8 && pos == (if k == 8 then 0 else BitOf(k))
      invariant ClearBit(x, 0) == ClearBit(x, k)
      decreases 8 - k
    {
      if !HasBit(x, pos) { return; }
      ShiftBit(k);
      pos := pos << 1;
      k := k + 1;
    }
    if k < 8 { ShiftBit(k); }
  }

  lemma FirstBit()
    ensures BitOf(0) == 1
  {
  }
}
