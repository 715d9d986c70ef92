/** The id mapper: a counter and a list of entries, searched from the front. */
module IdMapper {
  import opened Machine

  datatype Entry = Entry(id: nat, val: nat)

  /** id_mapper_get: the first entry with the id; id 0 is never used. */
  function Get(list: seq<Entry>, id: nat): Option<nat> {
    if id == 0 || list == [] then None
    else if list[0].id == id then Some(list[0].val)
    else Get(list[1..], id)
  }

  /** id_mapper_del: the list without the first entry with the id. */
  function Del(list: seq<Entry>, id: nat): seq<Entry> {
    if id == 0 || list == [] then list
    else if list[0].id == id then list[1..]
    else [list[0]] + Del(list[1..], id)
  }

  ghost predicate DistinctIds(list: seq<Entry>) {
    forall i, j :: 0 <= i < j < |list| ==> list[i].id != list[j].id
  }

  class Mapper {
    var next: nat
    var list: seq<Entry>

    /** Ids in use are distinct, never 0, and all were handed out before. */
    ghost predicate Valid()
      reads this
    {
      next > 0 && DistinctIds(list) && forall i :: 0 <= i < |list| ==> 0 < list[i].id < next
    }

    constructor ()
      ensures Valid() && next == 1 && list == []
    {
      next := 1;
      list := [];
    }

    method Add(val: nat) returns (id: nat)
      requires Valid()
      modifies this
      ensures Valid()
      ensures id == if val == 0 then 0 else old(next)
      ensures val == 0 ==> list == old(list) && next == old(next)
      ensures val != 0 ==> list == old(list) + [Entry(id, val)] && next == old(next) + 1
    {
      if val == 0 {
        return 0;
      }
      id := next;
      next := next + 1;
      list := list + [Entry(id, val)];
    }

    method Find(id: nat) returns (r: Option<nat>)
      ensures r == Get(list, id)
    {
      if id == 0 {
        return None;
      }
      var i := 0;
      while i < |list|
        invariant 0 <= i <= |list|
        invariant Get(list, id) == Get(list[i..], id)
      {
        if list[i].id == id {
          return Some(list[i].val);
        }
        i := i + 1;
      }
      return None;
    }

    method Remove(id: nat) returns (removed: bool)
      requires Valid()
      modifies this
      ensures Valid() && next == old(next)
      ensures list == Del(old(list), id)
      ensures removed <==> old(Get(list, id)).Some?
    {
      GetAfterDel(list, id, id);
      if id == 0 {
        return false;
      }
      var i := 0;
      while i < |list|
        invariant 0 <= i <= |list|
        invariant forall k :: 0 <= k < i ==> list[k].id != id
      {
        if list[i].id == id {
          DelAt(list, id, i);
          list := list[..i] + list[i + 1..];
          return true;
        }
        i := i + 1;
      }
      GetMisses(list, id);
      DelMisses(list, id);
      return false;
    }
  }

  lemma {:induction false} DelAt(list: seq<Entry>, id: nat, i: nat)
    requires id != 0 && i < |list| && list[i].id == id && forall k :: 0 <= k < i ==> list[k].id != id
    ensures Del(list, id) == list[..i] + list[i + 1..] && Get(list, id).Some?
    decreases |list|
  {
    if i > 0 {
      DelAt(list[1..], id, i - 1);
      assert [list[0]] + (list[1..][..i - 1] + list[1..][i..]) == list[..i] + list[i + 1..];
    }
  }

  lemma {:induction false} DelMisses(list: seq<Entry>, id: nat)
    requires forall i :: 0 <= i < |list| ==> list[i].id != id
    ensures Del(list, id) == list
    decreases |list|
  {
    if list != [] { DelMisses(list[1..], id); }
  }

  lemma {:induction false} GetMisses(list: seq<Entry>, id: nat)
    requires forall i :: 0 <= i < |list| ==> list[i].id != id
    ensures Get(list, id) == None
    decreases |list|
  {
    if list != [] { GetMisses(list[1..], id); }
  }

  lemma {:induction false} GetFound(list: seq<Entry>, id: nat) returns (i: nat)
    requires Get(list, id).Some?
    ensures i < |list| && list[i] == Entry(id, Get(list, id).value)
    decreases |list|
  {
    if list[0].id == id {
      i := 0;
    } else {
      i := GetFound(list[1..], id);
      i := i + 1;
    }
  }

  /** Adding under a fresh id makes that id found and changes no other. */
  lemma {:induction false} GetAfterAdd(list: seq<Entry>, id: nat, val: nat, x: nat)
    requires id != 0 && forall i :: 0 <= i < |list| ==> list[i].id != id
    ensures Get(list + [Entry(id, val)], x) == if x == id then Some(val) else Get(list, x)
    decreases |list|
  {
    if list != [] {
      assert (list + [Entry(id, val)])[1..] == list[1..] + [Entry(id, val)];
      GetAfterAdd(list[1..], id, val, x);
    } else {
      assert (list + [Entry(id, val)])[1..] == [];
    }
  }

  /** Deleting makes the id unknown for good and changes no other; the remaining ids stay distinct. */
  lemma {:induction false} GetAfterDel(list: seq<Entry>, id: nat, x: nat)
    requires DistinctIds(list)
    ensures Get(Del(list, id), x) == if x == id then None else Get(list, x)
    ensures DistinctIds(Del(list, id))
    ensures forall i :: 0 <= i < |Del(list, id)| ==> Del(list, id)[i] in list
    decreases |list|
  {
    if list != [] && id != 0 {
      if list[0].id == id {
        GetMisses(list[1..], id);
      } else {
        GetAfterDel(list[1..], id, x);
        var rest := Del(list[1..], id);
        assert ([list[0]] + rest)[1..] == rest;
        forall i | 0 <= i < |rest| ensures rest[i].id != list[0].id {
          assert rest[i] in list[1..];
        }
      }
    }
  }
}
