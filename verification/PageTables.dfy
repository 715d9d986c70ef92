/**
 The page-table code in its own form: memory, the kernel heap pointer and the address spaces are
 fields that the operations update, and native_vmem_set is a loop. Each operation is tied to its
 meaning in Paging, where the properties are proved.
 */
module PageTables {
  import opened Machine
  import opened Paging

  class NativeVmem {
    var tables: map<nat, Table>
    var heap: nat
    var spaces: seq<Native>

    function View(): State
      reads this
    {
      State(tables, heap, spaces)
    }

    constructor (start: nat)
      ensures View() == Run(start, [])
    {
      tables := map[];
      heap := start;
      spaces := [];
    }

    method Kalloc(bytes: nat) returns (ptr: nat)
      modifies this
      ensures ptr == old(heap) && View() == Bump(old(View()), bytes)
    {
      ptr := heap;
      heap := heap + bytes;
    }

    /** allocated_aligned_memory with the size of one table, as create_entries calls it */
    method CreateEntries(id: nat) returns (addr: nat)
      requires id < |spaces|
      modifies this
      ensures (View(), addr) == Cut(old(View()), id)
    {
      if PAGE > spaces[id].availSize {
        var block := Kalloc(BLOCK);
        var _ := Kalloc(LIST_NODE);
        spaces := spaces[id := spaces[id].(blocks := spaces[id].blocks + [block])];
        var start := MemAlign(block);
        var size := BLOCK;
        if start != block {
          start := start + PAGE;
          size := size - (start - block);
        }
        spaces := spaces[id := spaces[id].(availAddr := start, availSize := size)];
        assert spaces == TakeBlock(old(View()), id).spaces;
      }
      ghost var s1 := View();
      addr := spaces[id].availAddr;
      spaces := spaces[id := spaces[id].(availSize := spaces[id].availSize - PAGE)];
      spaces := spaces[id := spaces[id].(availAddr := spaces[id].availAddr + PAGE)];
      tables := tables[addr := EmptyTable()];
      assert spaces == s1.spaces[id := spaces[id]];
    }

    /** set_entry */
    method SetEntry(id: nat, level: nat, entries: nat, v: nat, p: nat)
      requires id < |spaces| && 1 <= level <= 4
      modifies this
      ensures View() == Paging.SetEntry(old(View()), id, level, entries, DigitsOf(v), p)
      decreases level
    {
      var index := Index(level, v);
      assert DigitsOf(v)[level - 1] == index;
      var entry := At(tables, entries)[index];
      if level == 1 {
        tables := Store(tables, entries, index, Fill(entry, p));
      } else {
        var next := Target(entry);
        if !entry.present {
          next := CreateEntries(id);
          tables := Store(tables, entries, index, Fill(entry, next));
        }
        SetEntry(id, level - 1, next, v, p);
      }
    }

    /** native_vmem_set */
    method NativeVmemSet(id: nat, v: nat, p: nat, size: nat) returns (ok: bool)
      requires id < |spaces|
      modifies this
      ensures ok <==> v % PAGE == 0 && p % PAGE == 0
      ensures View() == NativeSet(old(View()), id, v, p, size)
    {
      if v != MemAlign(v) || p != MemAlign(p) {
        return false;
      }
      var i := 0;
      while i < size / PAGE
        invariant 0 <= i <= size / PAGE
        invariant |spaces| == old(|spaces|)
        invariant View() == SetTimes(old(View()), id, v, p, i)
      {
        SetEntry(id, 4, spaces[id].entries, v, p);
        i := i + 1;
      }
      return true;
    }

    /** native_vmem_create: the new address space translates nothing, the others what they did before. */
    method NativeVmemCreate() returns (id: nat)
      modifies this
      ensures id == old(|spaces|) && View() == NativeCreate(old(View()))
      ensures WellFormed(old(View())) && heap <= LIMIT ==> WellFormed(View())
      ensures WellFormed(old(View())) && heap <= LIMIT ==> forall x :: Walk(View(), id, x) == None
      ensures WellFormed(old(View())) && heap <= LIMIT ==>
                forall j, x :: 0 <= j < id ==> Walk(View(), j, x) == Walk(old(View()), j, x)
    {
      hide WellFormed, WalkDigits, DigitsOf;
      ghost var was := View();
      if WellFormed(was) && NativeCreate(was).heap <= LIMIT {
        NativeCreateCorrect(was);
      }
      var _ := Kalloc(32);
      var _ := Kalloc(16);
      id := |spaces|;
      spaces := spaces + [Native(0, 0, 0, [])];
      var root := CreateEntries(id);
      spaces := spaces[id := spaces[id].(entries := root)];
    }
  }
}
