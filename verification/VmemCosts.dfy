/**
 What one more page of a region costs the kernel heap: list nodes and list entries for every address
 space the region is attached to, and the blocks their page tables take.
 */
module VmemCosts {
  import opened Machine
  import opened Vmem
  import P = Paging

  const NODE: nat := 16                             // linkedlist_node_t
  const ENTRY: nat := 24 + NODE                     // vmem_map_t and its node
  const BLOCK: nat := P.BLOCK + P.LIST_NODE         // a block of tables and its node

  /** The blocks all address spaces have taken for page tables. */
  function Blocks(spaces: seq<P.Native>): nat {
    if spaces == [] then 0 else Blocks(spaces[..|spaces| - 1]) + |spaces[|spaces| - 1].blocks|
  }

  lemma {:induction false} BlocksUpdate(spaces: seq<P.Native>, id: nat, pt: P.Native)
    requires id < |spaces|
    ensures Blocks(spaces[id := pt]) + |spaces[id].blocks| == Blocks(spaces) + |pt.blocks|
    decreases |spaces|
  {
    var n := |spaces| - 1;
    if id < n {
      assert spaces[id := pt][..n] == spaces[..n][id := pt];
      BlocksUpdate(spaces[..n], id, pt);
    } else {
      assert spaces[id := pt][..n] == spaces[..n];
    }
  }

  /** The heap has grown by what the blocks taken since cost, and `more`. */
  predicate Costs(s: P.State, s': P.State, more: nat) {
    s'.heap + BLOCK * Blocks(s.spaces) == s.heap + BLOCK * Blocks(s'.spaces) + more
  }

  lemma CutCosts(s: P.State, id: nat)
    requires id < |s.spaces|
    ensures Costs(s, P.Cut(s, id).0, 0)
  {
    var s1 := if PAGE > s.spaces[id].availSize then P.TakeBlock(s, id) else s;
    BlocksUpdate(s.spaces, id, s1.spaces[id]);
    BlocksUpdate(s1.spaces, id, P.Cut(s, id).0.spaces[id]);
  }

  lemma {:induction false} SetEntryCosts(s: P.State, id: nat, level: nat, addr: nat, d: P.Digits, p: nat)
    requires id < |s.spaces| && 1 <= level <= 4
    ensures Costs(s, P.SetEntry(s, id, level, addr, d, p), 0)
    decreases level, d
  {
    hide P.Cut;
    if level > 1 {
      var e := P.At(s.tables, addr)[d[level - 1]];
      if e.present {
        SetEntryCosts(s, id, level - 1, P.Target(e), d, p);
      } else {
        CutCosts(s, id);
        var (s1, t) := P.Cut(s, id);
        SetEntryCosts(s1.(tables := P.Store(s1.tables, addr, d[level - 1], P.Fill(e, t))), id, level - 1, t, d, p);
      }
    }
  }

  lemma {:induction false} SetTimesCosts(s: P.State, id: nat, v: nat, p: nat, n: nat)
    requires id < |s.spaces|
    ensures Costs(s, P.SetTimes(s, id, v, p, n), 0)
    decreases n, v
  {
    hide P.SetEntry;
    if n > 0 {
      SetTimesCosts(s, id, v, p, n - 1);
      var s1 := P.SetTimes(s, id, v, p, n - 1);
      SetEntryCosts(s1, id, 4, s1.spaces[id].entries, P.DigitsOf(v), p);
    }
  }

  lemma NotifyCosts(s: State, v: nat, r: nat, p: nat, x: nat)
    requires Handles(s) && v < |s.spaces|
    ensures Costs(s.paging, Notify(s, v, r, p, x).paging, ENTRY)
  {
    hide P.SetTimes;
    SetTimesCosts(P.Bump(s.paging, ENTRY), v, x, p, 1);
  }

  lemma {:induction false} BroadcastCosts(s: State, attached: seq<nat>, r: nat, p: nat, x: nat)
    requires Handles(s) && forall k :: 0 <= k < |attached| ==> attached[k] < |s.spaces|
    ensures Costs(s.paging, Broadcast(s, attached, r, p, x).paging, ENTRY * |attached|)
    decreases |attached|
  {
    hide Notify, Costs;
    if attached == [] {
      CostsNothing(s.paging);
    }
    if attached != [] {
      var n := |attached| - 1;
      var s1 := Broadcast(s, attached[..n], r, p, x);
      BroadcastCosts(s, attached[..n], r, p, x);
      NotifyCosts(s1, attached[n], r, p, x);
      CostsTwice(s.paging, s1.paging, Broadcast(s, attached, r, p, x).paging, ENTRY * n, ENTRY);
    }
  }

  lemma CostsNothing(s: P.State)
    ensures Costs(s, s, 0)
  {
  }

  lemma CostsTwice(s: P.State, s1: P.State, s2: P.State, more: nat, again: nat)
    requires Costs(s, s1, more) && Costs(s1, s2, again)
    ensures Costs(s, s2, more + again)
  {
  }

  /** The exact price of a page: a node, an entry for every attached address space, and the blocks taken. */
  lemma PageCosts(s: State, r: nat, p: nat)
    requires Handles(s) && r < |s.regions|
    ensures Costs(s.paging, AssocPage(s, r, p).paging, NODE + ENTRY * |s.regions[r].attached|)
  {
    var x := s.regions[r].start + s.regions[r].mappedSize;
    BroadcastCosts(AddPage(s, r, p), s.regions[r].attached, r, p, x);
  }

  lemma {:induction false} SetEntryTakes(s: P.State, id: nat, level: nat, addr: nat, d: P.Digits, p: nat)
    requires id < |s.spaces| && 1 <= level <= 4
    ensures Blocks(s.spaces) <= Blocks(P.SetEntry(s, id, level, addr, d, p).spaces) <= Blocks(s.spaces) + level - 1
    decreases level, d
  {
    SetEntryCosts(s, id, level, addr, d, p);
    P.SetEntryHeap(s, id, level, addr, d, p);
  }

  lemma NotifyTakes(s: State, v: nat, r: nat, p: nat, x: nat)
    requires Handles(s) && v < |s.spaces|
    ensures var b := Blocks(s.paging.spaces); b <= Blocks(Notify(s, v, r, p, x).paging.spaces) <= b + 3
  {
    hide P.SetEntry;
    var s1 := P.Bump(s.paging, ENTRY);
    SetEntryTakes(s1, v, 4, s1.spaces[v].entries, P.DigitsOf(x), p);
    assert P.SetTimes(s1, v, x, p, 0) == s1;
    assert P.SetTimes(s1, v, x, p, 1) == P.SetEntry(s1, v, 4, s1.spaces[v].entries, P.DigitsOf(x), p);
  }

  lemma {:induction false} BroadcastTakes(s: State, attached: seq<nat>, r: nat, p: nat, x: nat)
    requires Handles(s) && forall k :: 0 <= k < |attached| ==> attached[k] < |s.spaces|
    ensures var b := Blocks(s.paging.spaces);
            b <= Blocks(Broadcast(s, attached, r, p, x).paging.spaces) <= b + 3 * |attached|
    decreases |attached|
  {
    hide Notify;
    if attached != [] {
      var n := |attached| - 1;
      BroadcastTakes(s, attached[..n], r, p, x);
      NotifyTakes(Broadcast(s, attached[..n], r, p, x), attached[n], r, p, x);
    }
  }

  /**
   One more page of a region takes at most three blocks for each address space it is attached to, and
   costs the heap at most a page exactly when it takes no block and at most 102 of them have the region.
   */
  lemma CostsAPageExactly(s: State, r: nat, p: nat)
    requires Handles(s) && r < |s.regions|
    ensures var (s', k) := (AssocPage(s, r, p), |s.regions[r].attached|);
            var b := Blocks(s.paging.spaces);
            && b <= Blocks(s'.paging.spaces) <= b + 3 * k
            && (s'.paging.heap - s.paging.heap <= PAGE <==> Blocks(s'.paging.spaces) == b && k <= 102)
  {
    hide AssocPage, Broadcast, Blocks;
    PageCosts(s, r, p);
    PageTakes(s, r, p);
  }

  lemma PageTakes(s: State, r: nat, p: nat)
    requires Handles(s) && r < |s.regions|
    ensures var b := Blocks(s.paging.spaces);
            b <= Blocks(AssocPage(s, r, p).paging.spaces) <= b + 3 * |s.regions[r].attached|
  {
    var x := s.regions[r].start + s.regions[r].mappedSize;
    BroadcastTakes(AddPage(s, r, p), s.regions[r].attached, r, p, x);
  }
}
