/**
 The arguments of a task in its own memory: a pointer array, the bytes of the arguments behind it,
 and a record at the end that leads back to all of them.
 The area is `size` bytes at virtual address `stack`, contiguous in physical memory from `phys` on.
 */
module TaskArguments {
  import opened Machine
  import opened Bytes

  const SLOT := 8
  const RECORD := 16      // the number of arguments and the address of the pointer array

  // ---------------------------------------------------------------- the layout

  /** Where argument i starts, counted from the start of the area; for i = |args| where the record is. */
  function Offset(args: seq<seq<Byte>>, i: nat): (r: nat)
    requires i <= |args|
    ensures SLOT * (|args| + 1) <= r
  {
    if i == 0 then SLOT * (|args| + 1) else Offset(args, i - 1) + |args[i - 1]|
  }

  lemma {:induction false} OffsetsGrow(args: seq<seq<Byte>>, i: nat, j: nat)
    requires i <= j <= |args|
    ensures Offset(args, i) <= Offset(args, j)
    ensures i < j ==> Offset(args, i) + |args[i]| <= Offset(args, j)
    decreases j
  {
    if i < j {
      OffsetsGrow(args, i, j - 1);
    }
  }

  /** The arguments and the record fit into the area. */
  predicate Fits(args: seq<seq<Byte>>, size: nat) {
    args == [] || Offset(args, |args|) + RECORD <= size
  }

  /** Pointer i, the bytes of argument i and the record lie in separate parts of the area. */
  lemma PartsAreDisjoint(args: seq<seq<Byte>>, i: nat, j: nat)
    requires i < |args| && j < |args|
    ensures SLOT * i + SLOT <= SLOT * |args| < Offset(args, j)
    ensures i < j ==> Offset(args, i) + |args[i]| <= Offset(args, j)
    ensures Offset(args, j) + |args[j]| <= Offset(args, |args|)
  {
    OffsetsGrow(args, j, |args|);
    if i < j {
      OffsetsGrow(args, i, j);
    }
  }

  // ---------------------------------------------------------------- what memory holds

  /** Slot i of the pointer array leads to the bytes of argument i. */
  predicate Stored(m: seq<Byte>, phys: nat, stack: nat, args: seq<seq<Byte>>, i: nat)
    requires i < |args|
  {
    && phys + SLOT * i + SLOT <= |m| && Read(m, phys + SLOT * i, SLOT) == stack + Offset(args, i)
    && At(m, phys + Offset(args, i), args[i])
  }

  /** The first i arguments are stored, and nothing outside the used parts of the area has changed. */
  ghost predicate Progress(m: seq<Byte>, was: seq<Byte>, phys: nat, stack: nat, args: seq<seq<Byte>>, i: nat)
    requires i <= |args|
  {
    && |m| == |was| && (forall j :: 0 <= j < i ==> Stored(m, phys, stack, args, j))
    && (forall a :: 0 <= a < |m| && (a < phys || phys + Offset(args, i) <= a || InLastSlot(phys, args, a)) ==>
          m[a] == was[a])
  }

  /** The slot behind the pointers, which the layout reserves for NULL. */
  predicate InLastSlot(phys: nat, args: seq<seq<Byte>>, a: nat) {
    phys + SLOT * |args| <= a < phys + SLOT * (|args| + 1)
  }

  /** Bytes overwritten at an address. */
  ghost predicate Overwrote(m: seq<Byte>, was: seq<Byte>, a: nat, b: seq<Byte>) {
    && |m| == |was| && At(m, a, b)
    && (forall i :: 0 <= i < |m| && !(a <= i < a + |b|) ==> m[i] == was[i])
  }

  method CopyIn(m: array<Byte>, a: nat, b: seq<Byte>)
    requires a + |b| <= m.Length
    modifies m
    ensures Overwrote(m[..], old(m[..]), a, b)
  {
    var k := 0;
    while k < |b|
      invariant k <= |b|
      invariant forall i :: a <= i < a + k ==> m[i] == b[i - a]
      invariant forall i :: 0 <= i < m.Length && !(a <= i < a + k) ==> m[i] == old(m[i])
    {
      m[a + k] := b[k];
      k := k + 1;
    }
    assert m[a..a + |b|] == b;
  }

  lemma Untouched(m: seq<Byte>, was: seq<Byte>, a: nat, b: seq<Byte>, lo: nat, hi: nat)
    requires Overwrote(m, was, a, b) && lo <= hi <= |m| && (hi <= a || a + |b| <= lo)
    ensures m[lo..hi] == was[lo..hi]
  {
  }

  lemma StoredKept(m: seq<Byte>, was: seq<Byte>, a: nat, b: seq<Byte>,
                   phys: nat, stack: nat, args: seq<seq<Byte>>, i: nat)
    requires i < |args| && Stored(was, phys, stack, args, i) && Overwrote(m, was, a, b)
    requires phys + SLOT * (i + 1) <= a && (a + |b| <= phys + Offset(args, 0) || phys + Offset(args, i + 1) <= a)
    ensures Stored(m, phys, stack, args, i)
  {
    hide Number;
    OffsetsGrow(args, 0, i);
    var slot, data := phys + SLOT * i, phys + Offset(args, i);
    Untouched(m, was, a, b, slot, slot + SLOT);
    Untouched(m, was, a, b, data, data + |args[i]|);
  }

  lemma Limit8()
    ensures Limit(SLOT) == WORD64
  {
    assert Limit(4) == 256 * 256 * 256 * 256;
  }

  lemma NumberStored(m: seq<Byte>, was: seq<Byte>, a: nat, v: nat)
    requires v < WORD64 && Overwrote(m, was, a, Encode(v, SLOT))
    ensures a + SLOT <= |m| && Read(m, a, SLOT) == v
  {
    hide Encode, Limit;
    Limit8();
    assert Encode(v, SLOT) + [] == Encode(v, SLOT);
    ReadEncoded(m, a, v, SLOT, []);
  }

  /** Copying the bytes of argument i and writing its pointer stores it, and keeps those before it. */
  lemma StoreStep(m: seq<Byte>, mid: seq<Byte>, now: seq<Byte>, was: seq<Byte>,
                  phys: nat, stack: nat, args: seq<seq<Byte>>, i: nat)
    requires i < |args| && Progress(now, was, phys, stack, args, i) && stack + Offset(args, i) < WORD64
    requires Overwrote(mid, now, phys + Offset(args, i), args[i])
    requires Overwrote(m, mid, phys + SLOT * i, Encode(stack + Offset(args, i), SLOT))
    ensures Progress(m, was, phys, stack, args, i + 1)
  {
    hide Encode, Read, Stored;
    var pointer := Encode(stack + Offset(args, i), SLOT);
    OffsetsGrow(args, 0, i);
    forall j | 0 <= j < i ensures Stored(m, phys, stack, args, j) {
      OffsetsGrow(args, j + 1, i);
      StoredKept(mid, now, phys + Offset(args, i), args[i], phys, stack, args, j);
      StoredKept(m, mid, phys + SLOT * i, pointer, phys, stack, args, j);
    }
    LastStored(m, mid, now, phys, stack, args, i);
  }

  lemma LastStored(m: seq<Byte>, mid: seq<Byte>, now: seq<Byte>, phys: nat, stack: nat, args: seq<seq<Byte>>, i: nat)
    requires i < |args| && stack + Offset(args, i) < WORD64
    requires Overwrote(mid, now, phys + Offset(args, i), args[i])
    requires Overwrote(m, mid, phys + SLOT * i, Encode(stack + Offset(args, i), SLOT))
    ensures Stored(m, phys, stack, args, i)
  {
    hide Encode, Read;
    var pointer, data := Encode(stack + Offset(args, i), SLOT), phys + Offset(args, i);
    OffsetsGrow(args, 0, i);
    NumberStored(m, mid, phys + SLOT * i, stack + Offset(args, i));
    Untouched(m, mid, phys + SLOT * i, pointer, data, data + |args[i]|);
  }

  // ---------------------------------------------------------------- the copy

  /** The area is contiguous in physical memory, if it is mapped at all. */
  ghost predicate Contiguous(lookup: nat -> nat, stack: nat, size: nat) {
    lookup(stack) != 0 ==> forall a :: stack <= a < stack + size ==> lookup(a) == lookup(stack) + (a - stack)
  }

  /** Where the code looks up the physical address of the argument bytes. */
  function DataAt(lookup: nat -> nat, stack: nat, args: seq<seq<Byte>>): nat {
    lookup(stack + SLOT * (|args| + 1))
  }

  /** The physical address of the record. */
  function RecordAddress(lookup: nat -> nat, stack: nat, args: seq<seq<Byte>>): nat {
    if args == [] then DataAt(lookup, stack, args) else lookup(stack) + Offset(args, |args|)
  }

  /** The bytes a call may write: the area, or without arguments just the record, wherever it is. */
  predicate MayWrite(lookup: nat -> nat, stack: nat, size: nat, args: seq<seq<Byte>>, a: nat) {
    && lookup(stack) != 0 && DataAt(lookup, stack, args) != 0
    && if args == [] then RecordAddress(lookup, stack, args) <= a < RecordAddress(lookup, stack, args) + RECORD
       else lookup(stack) <= a < lookup(stack) + size
  }

  predicate InArea(lookup: nat -> nat, stack: nat, size: nat, a: nat) {
    lookup(stack) <= a < lookup(stack) + size
  }

  /**
   A call stays inside the area it is given exactly when there is an argument, or the area has the 24
   bytes of an empty pointer array and the record, or it is not mapped: without arguments nothing is
   checked.
   */
  lemma StaysInsideExactly(lookup: nat -> nat, stack: nat, size: nat, args: seq<seq<Byte>>)
    requires Contiguous(lookup, stack, size)
    ensures (forall a :: MayWrite(lookup, stack, size, args, a) ==> InArea(lookup, stack, size, a))
       <==> args != [] || size >= 24 || lookup(stack) == 0 || lookup(stack + SLOT) == 0
  {
    if args == [] && lookup(stack) != 0 && lookup(stack + SLOT) != 0 {
      var d := RecordAddress(lookup, stack, args);
      if size >= 24 {
        assert d == lookup(stack) + SLOT;
      } else {
        assert size > SLOT ==> d == lookup(stack) + SLOT;
        assert MayWrite(lookup, stack, size, args, d) && MayWrite(lookup, stack, size, args, d + RECORD - 1);
      }
    }
  }

  /** An area of eight bytes and no arguments: the record is written behind the area. */
  lemma EightByteArea()
    ensures var lookup := (a: nat) => a;
            && Contiguous(lookup, PAGE, 8)
            && MayWrite(lookup, PAGE, 8, [], PAGE + 8) && !InArea(lookup, PAGE, 8, PAGE + 8)
  {
  }

  /** The pointer array ends with NULL. */
  predicate NullEnds(m: seq<Byte>, phys: nat, args: seq<seq<Byte>>) {
    phys + SLOT * (|args| + 1) <= |m| && Read(m, phys + SLOT * |args|, SLOT) == 0
  }

  lemma SlotKept(m: seq<Byte>, was: seq<Byte>, phys: nat, args: seq<seq<Byte>>)
    requires |m| == |was| && forall a :: 0 <= a < |m| && InLastSlot(phys, args, a) ==> m[a] == was[a]
    ensures NullEnds(m, phys, args) <==> NullEnds(was, phys, args)
  {
    hide Number;
    var a, b := phys + SLOT * |args|, phys + SLOT * (|args| + 1);
    assert b <= |m| ==> m[a..b] == was[a..b];
  }

  /** The record, with the number of arguments and the address of the pointer array. */
  predicate RecordAt(m: seq<Byte>, a: nat, args: seq<seq<Byte>>, stack: nat) {
    a + RECORD <= |m| && Read(m, a, SLOT) == |args| && Read(m, a + SLOT, SLOT) == stack
  }

  /**
   copy_arguments_to_task: 0 exactly when the area is not mapped or too small for the arguments;
   otherwise the record leads to the pointer array and through it to every byte of every argument.
   */
  method CopyArguments(m: array<Byte>, lookup: nat -> nat, stack: nat, size: nat, args: seq<seq<Byte>>) returns (r: nat)
    requires Contiguous(lookup, stack, size) && stack + size < WORD64 && |args| < WORD64
    requires lookup(stack) + size <= m.Length
    requires args == [] ==> DataAt(lookup, stack, args) + RECORD <= m.Length
    modifies m
    ensures r == 0 <==> lookup(stack) == 0 || DataAt(lookup, stack, args) == 0 || !Fits(args, size)
    ensures r != 0 ==> r == stack + Offset(args, |args|)
    ensures r != 0 ==> RecordAt(m[..], RecordAddress(lookup, stack, args), args, stack)
    ensures r != 0 ==> forall i :: 0 <= i < |args| ==> Stored(m[..], lookup(stack), stack, args, i)
    ensures args != [] || size > SLOT ==>
              (NullEnds(m[..], lookup(stack), args) <==> NullEnds(old(m[..]), lookup(stack), args))
    ensures forall a :: 0 <= a < m.Length && !MayWrite(lookup, stack, size, args, a) ==> m[a] == old(m[a])
  {
    hide Encode, Read, Stored, Overwrote, NullEnds;
    var phys := lookup(stack);
    if phys == 0 {
      return 0;
    }
    var data := stack + SLOT * (|args| + 1);
    var dataPhys := lookup(data);
    if dataPhys == 0 {
      return 0;
    }
    ghost var was := m[..];
    for i := 0 to |args|
      invariant data == stack + Offset(args, i) && Progress(m[..], was, phys, stack, args, i)
      invariant if i == 0 then m[..] == was && dataPhys == DataAt(lookup, stack, args)
                else data + RECORD <= stack + size
      invariant data < stack + size ==> dataPhys == phys + (data - stack)
    {
      OffsetsGrow(args, i + 1, |args|);
      if data + |args[i]| > stack + size - RECORD {
        SlotKept(m[..], was, phys, args);
        return 0;
      }
      ghost var now := m[..];
      CopyIn(m, dataPhys, args[i]);
      ghost var mid := m[..];
      CopyIn(m, phys + SLOT * i, Encode(data, SLOT));
      StoreStep(m[..], mid, now, was, phys, stack, args, i);
      data := data + |args[i]|;
      dataPhys := dataPhys + |args[i]|;
    }
    ghost var now := m[..];
    CopyIn(m, dataPhys, Encode(|args|, SLOT));
    ghost var mid := m[..];
    CopyIn(m, dataPhys + SLOT, Encode(stack, SLOT));
    RecordStep(m[..], mid, now, dataPhys, stack, args);
    RecordKeepsStored(m[..], mid, now, was, phys, dataPhys, stack, args);
    if args != [] || size > SLOT {
      SlotKept(m[..], was, phys, args);
    }
    return data;
  }

  lemma RecordStep(m: seq<Byte>, mid: seq<Byte>, now: seq<Byte>, a: nat, stack: nat, args: seq<seq<Byte>>)
    requires stack < WORD64 && |args| < WORD64
    requires Overwrote(mid, now, a, Encode(|args|, SLOT)) && Overwrote(m, mid, a + SLOT, Encode(stack, SLOT))
    ensures RecordAt(m, a, args, stack)
    ensures forall i :: 0 <= i < |m| && !(a <= i < a + RECORD) ==> m[i] == now[i]
  {
    hide Encode, Number;
    NumberStored(mid, now, a, |args|);
    NumberStored(m, mid, a + SLOT, stack);
    Untouched(m, mid, a + SLOT, Encode(stack, SLOT), a, a + SLOT);
  }

  lemma RecordKeepsStored(m: seq<Byte>, mid: seq<Byte>, now: seq<Byte>, was: seq<Byte>, phys: nat, a: nat, stack: nat,
                          args: seq<seq<Byte>>)
    requires Progress(now, was, phys, stack, args, |args|)
    requires args != [] ==> a == phys + Offset(args, |args|)
    requires Overwrote(mid, now, a, Encode(|args|, SLOT)) && Overwrote(m, mid, a + SLOT, Encode(stack, SLOT))
    ensures forall i :: 0 <= i < |args| ==> Stored(m, phys, stack, args, i)
  {
    hide Encode, Number, Stored;
    forall i | 0 <= i < |args| ensures Stored(m, phys, stack, args, i) {
      OffsetsGrow(args, i + 1, |args|);
      StoredKept(mid, now, a, Encode(|args|, SLOT), phys, stack, args, i);
      StoredKept(m, mid, a + SLOT, Encode(stack, SLOT), phys, stack, args, i);
    }
  }
}
