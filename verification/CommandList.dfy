/**
 The instant-command list of src/common/state.c: a singly linked list kept in strcasecmp
 order, shown to be a set of case-folded names in every run.
 */
module CommandList {
  import opened CBytes
  import opened StateTree

  // ---------------------------------------------------------------- on values

  /** Strictly increasing C strings. */
  predicate Sorted(names: seq<seq<byte>>) {
    && (forall i :: 0 <= i < |names| ==> NulFree(names[i]))
    && forall i, j :: 0 <= i < j < |names| ==> Compare(names[i], names[j]) < 0
  }

  function Keys(names: seq<seq<byte>>): (keys: set<seq<byte>>) {
    if names == [] then {} else {Key(names[0])} + Keys(names[1..])
  }

  function Insert(names: seq<seq<byte>>, cmd: seq<byte>): (r: (seq<seq<byte>>, bool)) {
    if names == [] || Compare(names[0], cmd) > 0 then ([cmd] + names, true)
    else if Compare(names[0], cmd) < 0 then
      var (rest, added) := Insert(names[1..], cmd);
      ([names[0]] + rest, added)
    else (names, false)
  }

  function Remove(names: seq<seq<byte>>, cmd: seq<byte>): (r: (seq<seq<byte>>, bool)) {
    if names == [] || Compare(names[0], cmd) > 0 then (names, false)
    else if Compare(names[0], cmd) < 0 then
      var (rest, removed) := Remove(names[1..], cmd);
      ([names[0]] + rest, removed)
    else (names[1..], true)
  }

  lemma {:induction false} SortedTail(names: seq<seq<byte>>)
    requires Sorted(names) && names != []
    ensures Sorted(names[1..]) && NulFree(names[0])
    ensures forall i :: 0 <= i < |names[1..]| ==> Compare(names[0], names[1..][i]) < 0
  {
  }

  lemma {:induction false} SortedCons(first: seq<byte>, rest: seq<seq<byte>>)
    requires Sorted(rest) && NulFree(first) && (rest != [] ==> Compare(first, rest[0]) < 0)
    ensures Sorted([first] + rest)
  {
    var names := [first] + rest;
    forall i, j | 0 <= i < j < |names| ensures Compare(names[i], names[j]) < 0 {
      if i == 0 && j > 1 {
        CompareTransitive(first, rest[0], rest[j - 1]);
      }
    }
  }

  /** A name before the first is nowhere in the list. */
  lemma {:induction false} BeforeAll(names: seq<seq<byte>>, cmd: seq<byte>)
    requires Sorted(names) && NulFree(cmd) && (names != [] ==> Compare(names[0], cmd) > 0)
    ensures Key(cmd) !in Keys(names)
    decreases names
  {
    if names != [] {
      SortedTail(names);
      CompareZero(names[0], cmd);
      if |names| > 1 {
        CompareFlips(names[0], cmd);
        CompareTransitive(cmd, names[0], names[1]);
        CompareFlips(cmd, names[1]);
      }
      BeforeAll(names[1..], cmd);
    }
  }

  lemma {:induction false} FirstNotBehind(names: seq<seq<byte>>)
    requires Sorted(names) && names != []
    ensures Key(names[0]) !in Keys(names[1..])
  {
    SortedTail(names);
    if |names| > 1 {
      CompareFlips(names[0], names[1]);
    }
    BeforeAll(names[1..], names[0]);
  }

  /** Adding keeps the order and adds exactly one key; a name equal up to case is refused. */
  lemma {:induction false} InsertRefines(names: seq<seq<byte>>, cmd: seq<byte>)
    requires Sorted(names) && NulFree(cmd)
    ensures var (r, added) := Insert(names, cmd);
            && Sorted(r) && Keys(r) == Keys(names) + {Key(cmd)} && (added <==> Key(cmd) !in Keys(names))
            && r != [] && (r[0] == cmd || (names != [] && r[0] == names[0]))
    decreases names
  {
    hide Sorted, Compare;
    if names == [] || Compare(names[0], cmd) > 0 {
      BeforeAll(names, cmd);
      if names != [] {
        CompareFlips(names[0], cmd);
      }
      SortedCons(cmd, names);
      assert ([cmd] + names)[1..] == names;
    } else {
      SortedTail(names);
      CompareZero(names[0], cmd);
      if Compare(names[0], cmd) < 0 {
        InsertRefines(names[1..], cmd);
        var rest := Insert(names[1..], cmd).0;
        SortedCons(names[0], rest);
        assert ([names[0]] + rest)[1..] == rest;
      }
    }
  }

  /** Deleting keeps the order and removes exactly that key. */
  lemma {:induction false} RemoveRefines(names: seq<seq<byte>>, cmd: seq<byte>)
    requires Sorted(names) && NulFree(cmd)
    ensures var (r, removed) := Remove(names, cmd);
            && Sorted(r) && Keys(r) == Keys(names) - {Key(cmd)} && (removed <==> Key(cmd) in Keys(names))
            && (r != [] ==> names != [] && (r[0] == names[0] || (|names| > 1 && r[0] == names[1])))
    decreases names
  {
    hide Sorted, Compare;
    if names == [] || Compare(names[0], cmd) > 0 {
      BeforeAll(names, cmd);
    } else {
      SortedTail(names);
      CompareZero(names[0], cmd);
      if Compare(names[0], cmd) < 0 {
        RemoveRefines(names[1..], cmd);
        var rest := Remove(names[1..], cmd).0;
        assert rest != [] ==> rest[0] in names[1..];
        SortedCons(names[0], rest);
        assert ([names[0]] + rest)[1..] == rest;
      } else {
        FirstNotBehind(names);
      }
    }
  }

  datatype Op = Add(cmd: seq<byte>) | Delete(cmd: seq<byte>)

  function Run(names: seq<seq<byte>>, ops: seq<Op>): (r: (seq<seq<byte>>, seq<bool>))
    decreases ops
  {
    if ops == [] then (names, [])
    else
      var (next, done) := if ops[0].Add? then Insert(names, ops[0].cmd) else Remove(names, ops[0].cmd);
      var (last, results) := Run(next, ops[1..]);
      (last, [done] + results)
  }

  /** The same operations on a set of folded names. */
  function RunSet(keys: set<seq<byte>>, ops: seq<Op>): (r: (set<seq<byte>>, seq<bool>))
    decreases ops
  {
    if ops == [] then (keys, [])
    else
      var k := Key(ops[0].cmd);
      var next := if ops[0].Add? then keys + {k} else keys - {k};
      var (last, results) := RunSet(next, ops[1..]);
      (last, [next != keys] + results)
  }

  /** Any run gives the results and ends with the members the set does, in order. */
  lemma {:induction false} RunRefines(names: seq<seq<byte>>, ops: seq<Op>)
    requires Sorted(names) && forall i :: 0 <= i < |ops| ==> NulFree(ops[i].cmd)
    ensures var (last, results) := Run(names, ops);
            Sorted(last) && (Keys(last), results) == RunSet(Keys(names), ops)
    decreases ops
  {
    hide Sorted, Insert, Remove, Keys;
    if ops != [] {
      var cmd := ops[0].cmd;
      if ops[0].Add? {
        InsertRefines(names, cmd);
        RunRefines(Insert(names, cmd).0, ops[1..]);
      } else {
        RemoveRefines(names, cmd);
        RunRefines(Remove(names, cmd).0, ops[1..]);
      }
    }
  }

  function Put(names: seq<seq<byte>>, i: nat, cmd: seq<byte>): (r: seq<seq<byte>>)
    requires i <= |names|
  {
    names[..i] + [cmd] + names[i..]
  }

  function Drop(names: seq<seq<byte>>, i: nat): (r: seq<seq<byte>>)
    requires i < |names|
  {
    names[..i] + names[i + 1..]
  }

  lemma {:induction false} PutCons(names: seq<seq<byte>>, i: nat, cmd: seq<byte>)
    requires i <= |names|
    ensures i == 0 ==> Put(names, i, cmd) == [cmd] + names
    ensures i > 0 ==> Put(names, i, cmd) == [names[0]] + Put(names[1..], i - 1, cmd)
  {
  }

  lemma {:induction false} DropCons(names: seq<seq<byte>>, i: nat)
    requires i < |names|
    ensures i == 0 ==> Drop(names, i) == names[1..]
    ensures i > 0 ==> Drop(names, i) == [names[0]] + Drop(names[1..], i - 1)
  {
  }

  /** The scan stops at i: everything before is smaller, what is there is not. */
  predicate StopsAt(names: seq<seq<byte>>, cmd: seq<byte>, i: nat) {
    && i <= |names| && (forall k :: 0 <= k < i ==> Compare(names[k], cmd) < 0)
    && (i < |names| ==> Compare(names[i], cmd) >= 0)
  }

  lemma {:induction false} StopsBehindFirst(names: seq<seq<byte>>, cmd: seq<byte>, i: nat)
    requires StopsAt(names, cmd, i)
    ensures i > 0 ==> Compare(names[0], cmd) < 0 && StopsAt(names[1..], cmd, i - 1)
    ensures i == 0 && names != [] ==> Compare(names[0], cmd) >= 0
  {
  }

  /** Where the scan stops decides both operations. */
  lemma {:induction false} InsertAt(names: seq<seq<byte>>, cmd: seq<byte>, i: nat)
    requires StopsAt(names, cmd, i)
    ensures Insert(names, cmd) ==
            if i < |names| && Compare(names[i], cmd) == 0 then (names, false) else (Put(names, i, cmd), true)
    decreases i
  {
    StopsBehindFirst(names, cmd, i);
    PutCons(names, i, cmd);
    hide Compare, StopsAt, Put;
    if i > 0 {
      InsertAt(names[1..], cmd, i - 1);
      assert names == [names[0]] + names[1..];
    }
  }

  lemma {:induction false} RemoveAt(names: seq<seq<byte>>, cmd: seq<byte>, i: nat)
    requires StopsAt(names, cmd, i)
    ensures Remove(names, cmd) ==
            if i < |names| && Compare(names[i], cmd) == 0 then (Drop(names, i), true) else (names, false)
    decreases i
  {
    StopsBehindFirst(names, cmd, i);
    if i < |names| {
      DropCons(names, i);
    }
    hide Compare, StopsAt, Drop;
    if i > 0 {
      RemoveAt(names[1..], cmd, i - 1);
      assert names == [names[0]] + names[1..];
    }
  }

  // ---------------------------------------------------------------- the linked list

  class Item {
    const name: seq<byte>
    var next: Item?

    constructor (name: seq<byte>, next: Item?)
      ensures this.name == name && this.next == next
    {
      this.name, this.next := name, next;
    }
  }

  function NamesOf(spine: seq<Item>): (names: seq<seq<byte>>)
    ensures |names| == |spine| && forall i :: 0 <= i < |spine| ==> names[i] == spine[i].name
  {
    seq(|spine|, i requires 0 <= i < |spine| => spine[i].name)
  }

  /** The item at a place, or null behind the last. */
  function At(spine: seq<Item>, i: nat): (r: Item?) {
    if i < |spine| then spine[i] else null
  }

  predicate Distinct(spine: seq<Item>) {
    forall i, j :: 0 <= i < j < |spine| ==> spine[i] != spine[j]
  }

  lemma {:induction false} DistinctPut(spine: seq<Item>, i: nat, item: Item)
    requires Distinct(spine) && i <= |spine| && item !in spine
    ensures Distinct(spine[..i] + [item] + spine[i..])
  {
    var s := spine[..i] + [item] + spine[i..];
    assert forall k :: 0 <= k < |s| ==> s[k] == if k < i then spine[k] else if k == i then item else spine[k - 1];
  }

  lemma {:induction false} DistinctDrop(spine: seq<Item>, i: nat)
    requires Distinct(spine) && i < |spine|
    ensures Distinct(spine[..i] + spine[i + 1..])
  {
    var s := spine[..i] + spine[i + 1..];
    assert forall k :: 0 <= k < |s| ==> s[k] == if k < i then spine[k] else spine[k + 1];
  }

  lemma {:induction false} NamesPut(spine: seq<Item>, i: nat, item: Item)
    requires i <= |spine|
    ensures NamesOf(spine[..i] + [item] + spine[i..]) == Put(NamesOf(spine), i, item.name)
  {
  }

  lemma {:induction false} NamesDrop(spine: seq<Item>, i: nat)
    requires i < |spine|
    ensures NamesOf(spine[..i] + spine[i + 1..]) == Drop(NamesOf(spine), i)
  {
  }

  class Commands {
    var head: Item?

    /** The items in order of their links. */
    ghost var spine: seq<Item>

    ghost predicate Valid()
      reads this, spine
    {
      && head == At(spine, 0)
      && Distinct(spine)
      && forall i :: 0 <= i < |spine| ==> spine[i].next == At(spine, i + 1)
    }

    constructor ()
      ensures Valid() && spine == []
    {
      head, spine := null, [];
    }

    /** The place behind all smaller names: the item before it, if any, and the item at it. */
    method Scan(cmd: seq<byte>) returns (previous: Item?, at: Item?, ghost i: nat)
      requires Valid()
      ensures StopsAt(NamesOf(spine), cmd, i)
      ensures i > 0 ==> previous == spine[i - 1]
      ensures i == 0 ==> previous == null
      ensures at == At(spine, i)
    {
      hide Compare;
      previous, at, i := null, head, 0;
      while at != null && Compare(at.name, cmd) < 0
        invariant i <= |spine| && at == At(spine, i)
        invariant i > 0 ==> previous == spine[i - 1]
        invariant i == 0 ==> previous == null
        invariant forall k :: 0 <= k < i ==> Compare(spine[k].name, cmd) < 0
        decreases |spine| - i
      {
        previous, at, i := at, at.next, i + 1;
      }
    }

    /** Links a new item in between. */
    method Link(previous: Item?, at: Item?, cmd: seq<byte>, ghost i: nat) returns (item: Item)
      requires Valid() && i <= |spine| && at == At(spine, i)
      requires i > 0 ==> previous == spine[i - 1]
      requires i == 0 ==> previous == null
      modifies this, spine
      ensures Valid() && fresh(item) && item.name == cmd
      ensures spine == old(spine[..i]) + [item] + old(spine[i..])
    {
      item := new Item(cmd, at);
      ghost var was := spine;
      DistinctPut(was, i, item);
      if previous == null {
        head := item;
      } else {
        previous.next := item;
      }
      assert forall k :: 0 <= k < |was| && k + 1 != i ==> was[k].next == At(was, k + 1);
      hide Distinct;
      ghost var now := was[..i] + [item] + was[i..];
      forall k | 0 <= k < |now| ensures now[k].next == At(now, k + 1) {
        if k < i {
          assert now[k] == was[k] && At(now, k + 1) == if k + 1 == i then item else was[k + 1];
        } else if k > i {
          assert now[k] == was[k - 1] && At(now, k + 1) == At(was, k);
        } else {
          assert now[k] == item && At(now, k + 1) == At(was, i);
        }
      }
      spine := now;
    }

    /** Takes an item out of the chain. */
    method Unlink(previous: Item?, at: Item, ghost i: nat)
      requires Valid() && i < |spine| && at == spine[i]
      requires i > 0 ==> previous == spine[i - 1]
      requires i == 0 ==> previous == null
      modifies this, spine
      ensures Valid() && spine == old(spine[..i]) + old(spine[i + 1..])
    {
      ghost var was := spine;
      DistinctDrop(was, i);
      assert at.next == At(was, i + 1);
      if previous == null {
        head := at.next;
      } else {
        previous.next := at.next;
      }
      assert forall k :: 0 <= k < |was| && k + 1 != i ==> was[k].next == At(was, k + 1);
      hide Distinct;
      ghost var now := was[..i] + was[i + 1..];
      forall k | 0 <= k < |now| ensures now[k].next == At(now, k + 1) {
        if k < i {
          assert now[k] == was[k] && At(now, k + 1) == if k + 1 == i then At(was, i + 1) else was[k + 1];
        } else {
          assert now[k] == was[k + 1] && At(now, k + 1) == At(was, k + 2);
        }
      }
      spine := now;
    }

    method AddCommand(cmd: seq<byte>) returns (added: bool)
      requires Valid()
      modifies this, spine
      ensures Valid() && (NamesOf(spine), added) == Insert(old(NamesOf(spine)), cmd)
      ensures forall x :: x in spine ==> x in old(spine) || fresh(x)
    {
      var previous, at, i := Scan(cmd);
      InsertAt(NamesOf(spine), cmd, i);
      hide Compare, StopsAt, Insert, Put, NamesOf, Distinct, At;
      if at != null && Compare(at.name, cmd) == 0 {
        return false;
      }
      ghost var was := spine;
      var item := Link(previous, at, cmd, i);
      NamesPut(was, i, item);
      added := true;
    }

    method DeleteCommand(cmd: seq<byte>) returns (removed: bool)
      requires Valid()
      modifies this, spine
      ensures Valid() && (NamesOf(spine), removed) == Remove(old(NamesOf(spine)), cmd)
      ensures forall x :: x in spine ==> x in old(spine)
    {
      var previous, at, i := Scan(cmd);
      RemoveAt(NamesOf(spine), cmd, i);
      hide Compare, StopsAt, Remove, Drop, Distinct;
      if at == null || Compare(at.name, cmd) > 0 {
        return false;
      }
      ghost var was := spine;
      Unlink(previous, at, i);
      NamesDrop(was, i);
      removed := true;
    }
  }
}
