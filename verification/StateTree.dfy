/**
 The variable tree of src/common/state.c on values: an unbalanced search tree ordered by
 strcasecmp, shown to be a case-insensitive map in every run.
 */
module StateTree {
  import opened CBytes
  import opened ParseConf

  // ---------------------------------------------------------------- strcasecmp

  /** strcasecmp on NUL-free strings: the difference at the first place that differs up to case. */
  function Compare(a: seq<byte>, b: seq<byte>): (d: int)
    decreases a
  {
    var x: int := if a == [] then 0 else Lower(a[0]);
    var y: int := if b == [] then 0 else Lower(b[0]);
    if x != y || a == [] || b == [] then x - y else Compare(a[1..], b[1..])
  }

  lemma {:induction false} CompareZero(a: seq<byte>, b: seq<byte>)
    requires NulFree(a) && NulFree(b)
    ensures Compare(a, b) == 0 <==> LowerAll(a) == LowerAll(b)
    decreases a
  {
    if a != [] && b != [] && Lower(a[0]) == Lower(b[0]) {
      Tails(a, b);
      CompareZero(a[1..], b[1..]);
      assert LowerAll(a) == [Lower(a[0])] + LowerAll(a[1..]);
      assert LowerAll(b) == [Lower(b[0])] + LowerAll(b[1..]);
      assert LowerAll(a)[1..] == LowerAll(a[1..]) && LowerAll(b)[1..] == LowerAll(b[1..]);
    } else if a != [] && b != [] {
      assert LowerAll(a)[0] != LowerAll(b)[0];
    }
  }

  lemma {:induction false} Tails(a: seq<byte>, b: seq<byte>)
    requires NulFree(a) && NulFree(b) && a != [] && b != []
    ensures NulFree(a[1..]) && NulFree(b[1..])
  {
  }

  lemma {:induction false} CompareFlips(a: seq<byte>, b: seq<byte>)
    ensures Compare(b, a) == -Compare(a, b)
    decreases a
  {
    if a != [] && b != [] && Lower(a[0]) == Lower(b[0]) {
      CompareFlips(a[1..], b[1..]);
    }
  }

  lemma {:induction false} CompareTransitive(a: seq<byte>, b: seq<byte>, c: seq<byte>)
    requires NulFree(a) && NulFree(b) && NulFree(c)
    requires Compare(a, b) <= 0 && Compare(b, c) <= 0
    ensures Compare(a, c) <= 0
    ensures Compare(a, b) < 0 || Compare(b, c) < 0 ==> Compare(a, c) < 0
    decreases a
  {
    if a != [] && b != [] && c != [] && Lower(a[0]) == Lower(b[0]) == Lower(c[0]) {
      Tails(a, b);
      Tails(b, c);
      CompareTransitive(a[1..], b[1..], c[1..]);
    }
  }

  // ---------------------------------------------------------------- the tree

  const VALUE_SIZE := 256

  /** One variable: val is what state_getinfo hands out, raw what was stored. */
  datatype Entry = Entry(name: seq<byte>, raw: seq<byte>, val: seq<byte>, immutable: bool, lastSet: int)

  datatype Tree = Leaf | Node(e: Entry, left: Tree, right: Tree)

  /** The key under which strcasecmp files a name. */
  function Key(name: seq<byte>): (k: seq<byte>) {
    LowerAll(name)
  }

  predicate Below(t: Tree, name: seq<byte>) {
    t.Node? ==> Compare(t.e.name, name) < 0 && Below(t.left, name) && Below(t.right, name)
  }

  predicate Above(t: Tree, name: seq<byte>) {
    t.Node? ==> Compare(t.e.name, name) > 0 && Above(t.left, name) && Above(t.right, name)
  }

  /** Names and values are C strings and every val is the 256-byte encoding of its raw value. */
  predicate EntryOk(e: Entry) {
    NulFree(e.name) && NulFree(e.raw) && e.val == EncodeInto(e.raw, VALUE_SIZE)
  }

  /** A strict search tree. */
  predicate Bst(t: Tree) {
    t.Node? ==> && EntryOk(t.e) && Below(t.left, t.e.name) && Above(t.right, t.e.name)
                && Bst(t.left) && Bst(t.right)
  }

  type Vars = map<seq<byte>, Entry>

  /** The map a tree stands for. */
  function Contents(t: Tree): (m: Vars) {
    if t.Leaf? then map[] else Contents(t.left) + Contents(t.right) + map[Key(t.e.name) := t.e]
  }

  function Find(t: Tree, name: seq<byte>): (r: Option<Entry>) {
    if t.Leaf? then None
    else
      var d := Compare(t.e.name, name);
      if d > 0 then Find(t.left, name) else if d < 0 then Find(t.right, name) else Some(t.e)
  }

  function Fresh(name: seq<byte>, value: seq<byte>, now: int): (e: Entry) {
    Entry(name, value, EncodeInto(value, VALUE_SIZE), false, now)
  }

  /** state_setinfo on an existing node; the timestamp is refreshed even when nothing else changes. */
  function Update(e: Entry, value: seq<byte>, now: int): (r: (Entry, int)) {
    if Compare(e.raw, value) == 0 || e.immutable then (e.(lastSet := now), 0)
    else (e.(lastSet := now, raw := value, val := EncodeInto(value, VALUE_SIZE)), 1)
  }

  function Set(t: Tree, name: seq<byte>, value: seq<byte>, now: int): (r: (Tree, int)) {
    if t.Leaf? then (Node(Fresh(name, value, now), Leaf, Leaf), 1)
    else
      var d := Compare(t.e.name, name);
      if d > 0 then var (l, n) := Set(t.left, name, value, now); (t.(left := l), n)
      else if d < 0 then var (r, n) := Set(t.right, name, value, now); (t.(right := r), n)
      else var (e, n) := Update(t.e, value, now); (t.(e := e), n)
  }

  /** dstate_setflags as far as immutability goes: an immutable variable keeps its flags, a missing one stays missing. */
  function Mark(t: Tree, name: seq<byte>, immutable: bool): (r: Tree) {
    if t.Leaf? then t
    else
      var d := Compare(t.e.name, name);
      if d > 0 then t.(left := Mark(t.left, name, immutable))
      else if d < 0 then t.(right := Mark(t.right, name, immutable))
      else t.(e := Marked(t.e, immutable))
  }

  function Marked(e: Entry, immutable: bool): (r: Entry) {
    e.(immutable := e.immutable || immutable)
  }

  /** st_tree_node_add: the subtree sub is hung below t; the flag reports the duplicate branch. */
  function Hang(t: Tree, sub: Tree): (r: (Tree, bool)) {
    if sub.Leaf? then (t, false)
    else if t.Leaf? then (sub, false)
    else
      var d := Compare(t.e.name, sub.e.name);
      if d > 0 then var (l, dup) := Hang(t.left, sub); (t.(left := l), dup)
      else if d < 0 then var (r, dup) := Hang(t.right, sub); (t.(right := r), dup)
      else (t, true)
  }

  /** Deletion of a found node is refused for immutable entries and, with a cutoff, for recent ones. */
  predicate Removable(e: Entry, cutoff: Option<int>) {
    !e.immutable && (cutoff.Some? ==> e.lastSet < cutoff.value)
  }

  /** state_delinfo (no cutoff) and state_delinfo_olderthan. */
  function Delete(t: Tree, name: seq<byte>, cutoff: Option<int>): (r: (Tree, int)) {
    if t.Leaf? then (t, 0)
    else
      var d := Compare(t.e.name, name);
      if d > 0 then var (l, n) := Delete(t.left, name, cutoff); (t.(left := l), n)
      else if d < 0 then var (r, n) := Delete(t.right, name, cutoff); (t.(right := r), n)
      else if !Removable(t.e, cutoff) then (t, 0)
      else (Hang(t.right, t.left).0, 1)
  }

  // ---------------------------------------------------------------- bounds

  lemma {:induction false} BelowUp(t: Tree, a: seq<byte>, b: seq<byte>)
    requires Bst(t) && NulFree(a) && NulFree(b) && Below(t, a) && Compare(a, b) <= 0
    ensures Below(t, b)
  {
    if t.Node? {
      CompareTransitive(t.e.name, a, b);
      BelowUp(t.left, a, b);
      BelowUp(t.right, a, b);
    }
  }

  lemma {:induction false} AboveDown(t: Tree, a: seq<byte>, b: seq<byte>)
    requires Bst(t) && NulFree(a) && NulFree(b) && Above(t, a) && Compare(b, a) <= 0
    ensures Above(t, b)
  {
    if t.Node? {
      CompareFlips(t.e.name, a);
      CompareTransitive(b, a, t.e.name);
      CompareFlips(t.e.name, b);
      AboveDown(t.left, a, b);
      AboveDown(t.right, a, b);
    }
  }

  /** Every key of the map is the key of its entry's name, and lies on the tree's side of a bound. */
  lemma {:induction false} ContentsKeyed(t: Tree, k: seq<byte>)
    requires Bst(t) && k in Contents(t)
    ensures EntryOk(Contents(t)[k]) && Key(Contents(t)[k].name) == k
  {
    if k in Contents(t.left) {
      ContentsKeyed(t.left, k);
    }
    if k in Contents(t.right) {
      ContentsKeyed(t.right, k);
    }
  }

  lemma {:induction false} BelowContents(t: Tree, name: seq<byte>)
    requires Bst(t) && NulFree(name) && Below(t, name)
    ensures Key(name) !in Contents(t)
  {
    if t.Node? {
      CompareZero(t.e.name, name);
      BelowContents(t.left, name);
      BelowContents(t.right, name);
    }
  }

  lemma {:induction false} AboveContents(t: Tree, name: seq<byte>)
    requires Bst(t) && NulFree(name) && Above(t, name)
    ensures Key(name) !in Contents(t)
  {
    if t.Node? {
      CompareZero(t.e.name, name);
      AboveContents(t.left, name);
      AboveContents(t.right, name);
    }
  }

  /** No key below a bound is above it too. */
  lemma {:induction false} SidesDisjoint(l: Tree, r: Tree, name: seq<byte>)
    requires Bst(l) && Bst(r) && NulFree(name) && Below(l, name) && Above(r, name)
    ensures Contents(l).Keys !! Contents(r).Keys
  {
    if l.Node? {
      AboveDown(r, name, l.e.name);
      AboveContents(r, l.e.name);
      SidesDisjoint(l.left, r, name);
      SidesDisjoint(l.right, r, name);
    }
  }

  /** Which side of a node a name is filed on. */
  lemma {:induction false} KeySide(t: Tree, name: seq<byte>)
    requires t.Node? && Bst(t) && NulFree(name)
    ensures Compare(t.e.name, name) > 0 ==> Key(name) !in Contents(t.right) && Key(name) != Key(t.e.name)
    ensures Compare(t.e.name, name) < 0 ==> Key(name) !in Contents(t.left) && Key(name) != Key(t.e.name)
    ensures Compare(t.e.name, name) == 0 ==>
              && Key(name) == Key(t.e.name)
              && Key(name) !in Contents(t.left) && Key(name) !in Contents(t.right)
  {
    CompareZero(t.e.name, name);
    CompareFlips(t.e.name, name);
    if Compare(t.e.name, name) >= 0 {
      AboveDown(t.right, t.e.name, name);
      AboveContents(t.right, name);
    }
    if Compare(t.e.name, name) <= 0 {
      BelowUp(t.left, t.e.name, name);
      BelowContents(t.left, name);
    }
  }

  /** Looking a name up is looking its key up. */
  lemma {:induction false} FindIsLookup(t: Tree, name: seq<byte>)
    requires Bst(t) && NulFree(name)
    ensures Find(t, name) == if Key(name) in Contents(t) then Some(Contents(t)[Key(name)]) else None
  {
    if t.Node? {
      KeySide(t, name);
      FindIsLookup(t.left, name);
      FindIsLookup(t.right, name);
    }
  }

  // ---------------------------------------------------------------- the map

  function SetMap(m: Vars, name: seq<byte>, value: seq<byte>, now: int)
    : (r: (Vars, int))
  {
    var k := Key(name);
    if k in m then var (e, n) := Update(m[k], value, now); (m[k := e], n)
    else (m[k := Fresh(name, value, now)], 1)
  }

  function DeleteMap(m: Vars, name: seq<byte>, cutoff: Option<int>)
    : (r: (Vars, int))
  {
    var k := Key(name);
    if k in m && Removable(m[k], cutoff) then (m - {k}, 1) else (m, 0)
  }

  function MarkMap(m: Vars, name: seq<byte>, immutable: bool): (r: Vars) {
    var k := Key(name);
    if k in m then m[k := Marked(m[k], immutable)] else m
  }

  lemma {:induction false} PutBeside(l: Vars, r: Vars, x: seq<byte>, e: Entry, k: seq<byte>, v: Entry)
    requires k != x
    ensures k !in r ==> l[k := v] + r + map[x := e] == (l + r + map[x := e])[k := v]
    ensures l + r[k := v] + map[x := e] == (l + r + map[x := e])[k := v]
  {
  }

  lemma {:induction false} PutRoot(l: Vars, r: Vars, x: seq<byte>, e: Entry, v: Entry)
    ensures l + r + map[x := v] == (l + r + map[x := e])[x := v]
  {
  }

  lemma {:induction false} DropBeside(l: Vars, r: Vars, x: seq<byte>, e: Entry, k: seq<byte>)
    requires k != x
    ensures k !in r ==> l - {k} + r + map[x := e] == l + r + map[x := e] - {k}
    ensures k !in l ==> l + (r - {k}) + map[x := e] == l + r + map[x := e] - {k}
  {
  }

  lemma {:induction false} DropRoot(l: Vars, r: Vars, x: seq<byte>, e: Entry)
    requires x !in l && x !in r && l.Keys !! r.Keys
    ensures r + l == l + r + map[x := e] - {x}
  {
  }

  lemma {:induction false} MergeLeft(l: Vars, r: Vars, x: seq<byte>, e: Entry, sub: Vars)
    requires sub.Keys !! (l + r + map[x := e]).Keys
    ensures l + sub + r + map[x := e] == l + r + map[x := e] + sub
  {
    assert x !in sub && sub.Keys !! r.Keys by {
      assert x in (l + r + map[x := e]).Keys && r.Keys <= (l + r + map[x := e]).Keys;
    }
  }

  lemma {:induction false} SetBounds(t: Tree, name: seq<byte>, value: seq<byte>, now: int, b: seq<byte>)
    ensures Below(t, b) && Compare(name, b) < 0 ==> Below(Set(t, name, value, now).0, b)
    ensures Above(t, b) && Compare(name, b) > 0 ==> Above(Set(t, name, value, now).0, b)
  {
    if t.Node? {
      SetBounds(t.left, name, value, now, b);
      SetBounds(t.right, name, value, now, b);
    }
  }

  /** Storing a variable keeps the search tree and stores it in the map, nothing else. */
  lemma {:induction false} SetRefines(t: Tree, name: seq<byte>, value: seq<byte>, now: int)
    requires Bst(t) && NulFree(name) && NulFree(value)
    ensures Bst(Set(t, name, value, now).0)
    ensures var (t', n) := Set(t, name, value, now); (Contents(t'), n) == SetMap(Contents(t), name, value, now)
  {
    if t.Node? {
      KeySide(t, name);
      CompareFlips(t.e.name, name);
      if Compare(t.e.name, name) > 0 {
        SetRefines(t.left, name, value, now);
        SetBounds(t.left, name, value, now, t.e.name);
        PutBeside(Contents(t.left), Contents(t.right), Key(t.e.name), t.e, Key(name),
                  Contents(Set(t.left, name, value, now).0)[Key(name)]);
      } else if Compare(t.e.name, name) < 0 {
        SetRefines(t.right, name, value, now);
        SetBounds(t.right, name, value, now, t.e.name);
        PutBeside(Contents(t.left), Contents(t.right), Key(t.e.name), t.e, Key(name),
                  Contents(Set(t.right, name, value, now).0)[Key(name)]);
      } else {
        PutRoot(Contents(t.left), Contents(t.right), Key(t.e.name), t.e, Update(t.e, value, now).0);
      }
    } else {
      var none: Vars := map[];
      assert none + none + map[Key(name) := Fresh(name, value, now)] == none[Key(name) := Fresh(name, value, now)];
    }
  }

  lemma {:induction false} MarkBounds(t: Tree, name: seq<byte>, immutable: bool, b: seq<byte>)
    ensures Below(t, b) ==> Below(Mark(t, name, immutable), b)
    ensures Above(t, b) ==> Above(Mark(t, name, immutable), b)
  {
    if t.Node? {
      SameEntry(t.e, immutable);
      MarkBounds(t.left, name, immutable, b);
      MarkBounds(t.right, name, immutable, b);
    }
  }

  lemma {:induction false} SameEntry(e: Entry, immutable: bool)
    ensures var r := Marked(e, immutable); r.name == e.name && (EntryOk(e) ==> EntryOk(r))
  {
  }

  lemma {:induction false} MarkBst(t: Tree, name: seq<byte>, immutable: bool)
    requires Bst(t)
    ensures Bst(Mark(t, name, immutable))
  {
    hide EntryOk, Compare;
    if t.Node? {
      SameEntry(t.e, immutable);
      MarkBst(t.left, name, immutable);
      MarkBst(t.right, name, immutable);
      MarkBounds(t.left, name, immutable, t.e.name);
      MarkBounds(t.right, name, immutable, t.e.name);
    }
  }

  /** Setting the flag keeps the search tree and touches the one entry only. */
  lemma {:induction false} MarkRefines(t: Tree, name: seq<byte>, immutable: bool)
    requires Bst(t) && NulFree(name)
    ensures Bst(Mark(t, name, immutable)) && Contents(Mark(t, name, immutable)) == MarkMap(Contents(t), name, immutable)
  {
    hide EntryOk, Compare, Below, Above;
    MarkBst(t, name, immutable);
    if t.Node? {
      KeySide(t, name);
      SameEntry(t.e, immutable);
      var l, r, x, k := Contents(t.left), Contents(t.right), Key(t.e.name), Key(name);
      if Compare(t.e.name, name) > 0 {
        MarkRefines(t.left, name, immutable);
        if k in l {
          PutBeside(l, r, x, t.e, k, Marked(l[k], immutable));
        }
      } else if Compare(t.e.name, name) < 0 {
        MarkRefines(t.right, name, immutable);
        if k in r {
          PutBeside(l, r, x, t.e, k, Marked(r[k], immutable));
        }
      } else {
        PutRoot(l, r, x, t.e, Marked(t.e, immutable));
      }
    }
  }

  lemma {:induction false} HangBounds(t: Tree, sub: Tree, b: seq<byte>)
    ensures Below(t, b) && Below(sub, b) ==> Below(Hang(t, sub).0, b)
    ensures Above(t, b) && Above(sub, b) ==> Above(Hang(t, sub).0, b)
  {
    if t.Node? {
      HangBounds(t.left, sub, b);
      HangBounds(t.right, sub, b);
    }
  }

  /**
   Hanging a subtree below a larger one merges the two maps; the duplicate branch is never
   taken and the subtree always ends up leftmost.
   */
  lemma {:induction false} HangRefines(t: Tree, sub: Tree, mid: seq<byte>)
    requires Bst(t) && Bst(sub) && NulFree(mid) && Below(sub, mid) && Above(t, mid)
    ensures !Hang(t, sub).1
    ensures Bst(Hang(t, sub).0)
    ensures Contents(Hang(t, sub).0) == Contents(t) + Contents(sub)
  {
    if sub.Node? && t.Node? {
      CompareFlips(t.e.name, mid);
      CompareTransitive(sub.e.name, mid, t.e.name);
      CompareFlips(sub.e.name, t.e.name);
      HangRefines(t.left, sub, mid);
      BelowUp(sub, mid, t.e.name);
      HangBounds(t.left, sub, t.e.name);
      SidesDisjoint(sub, t, mid);
      MergeLeft(Contents(t.left), Contents(t.right), Key(t.e.name), t.e, Contents(sub));
    }
  }

  lemma {:induction false} DeleteBounds(t: Tree, name: seq<byte>, cutoff: Option<int>, b: seq<byte>)
    ensures Below(t, b) ==> Below(Delete(t, name, cutoff).0, b)
    ensures Above(t, b) ==> Above(Delete(t, name, cutoff).0, b)
  {
    if t.Node? {
      DeleteBounds(t.left, name, cutoff, b);
      DeleteBounds(t.right, name, cutoff, b);
      HangBounds(t.right, t.left, b);
    }
  }

  /** Deleting removes exactly the one key from the map, or nothing at all. */
  lemma {:induction false} DeleteRefines(t: Tree, name: seq<byte>, cutoff: Option<int>)
    requires Bst(t) && NulFree(name)
    ensures Bst(Delete(t, name, cutoff).0)
    ensures var (t', n) := Delete(t, name, cutoff); (Contents(t'), n) == DeleteMap(Contents(t), name, cutoff)
  {
    if t.Node? {
      KeySide(t, name);
      SidesDisjoint(t.left, t.right, t.e.name);
      if Compare(t.e.name, name) > 0 {
        DeleteRefines(t.left, name, cutoff);
        DeleteBounds(t.left, name, cutoff, t.e.name);
        DropBeside(Contents(t.left), Contents(t.right), Key(t.e.name), t.e, Key(name));
      } else if Compare(t.e.name, name) < 0 {
        DeleteRefines(t.right, name, cutoff);
        DeleteBounds(t.right, name, cutoff, t.e.name);
        DropBeside(Contents(t.left), Contents(t.right), Key(t.e.name), t.e, Key(name));
      } else {
        HangRefines(t.right, t.left, t.e.name);
        DropRoot(Contents(t.left), Contents(t.right), Key(t.e.name), t.e);
      }
    }
  }

  // ---------------------------------------------------------------- what the operations mean

  /**
   After storing, the name is found with the time of the call. A new entry is mutable and holds
   the value; a mutable one whose value differs up to case takes it over; any other keeps its
   own. The result tells whether anything but the time changed, and no other name is affected.
   */
  lemma {:induction false} SetLaw(t: Tree, name: seq<byte>, value: seq<byte>, now: int, other: seq<byte>)
    requires Bst(t) && NulFree(name) && NulFree(value) && NulFree(other)
    ensures var was, r := Find(t, name), Set(t, name, value, now);
            var found := Find(r.0, name);
            && found.Some? && found.value.lastSet == now
            && found.value.val == EncodeInto(found.value.raw, 256)
            && (was.None? ==> found.value.name == name && !found.value.immutable && found.value.raw == value)
            && (was.Some? ==> found.value.name == was.value.name && found.value.immutable == was.value.immutable)
            && (was.Some? && !was.value.immutable && LowerAll(was.value.raw) != LowerAll(value) ==> found.value.raw == value)
            && (was.Some? && (was.value.immutable || LowerAll(was.value.raw) == LowerAll(value)) ==>
                  found.value.raw == was.value.raw)
            && r.1 == (if was.None? || found.value.raw != was.value.raw then 1 else 0)
            && (LowerAll(other) != LowerAll(name) ==> Find(r.0, other) == Find(t, other))
  {
    hide Bst, Contents, Find, Set, EncodeInto, LowerAll;
    SetRefines(t, name, value, now);
    var t' := Set(t, name, value, now).0;
    FindIsLookup(t, name);
    FindIsLookup(t', name);
    FindIsLookup(t, other);
    FindIsLookup(t', other);
    ContentsKeyed(t', Key(name));
    if Key(name) in Contents(t) {
      ContentsKeyed(t, Key(name));
      CompareZero(Contents(t)[Key(name)].raw, value);
    }
  }

  lemma {:induction false} RefusedUnchanged(t: Tree, name: seq<byte>, cutoff: Option<int>)
    ensures Delete(t, name, cutoff).1 == 0 ==> Delete(t, name, cutoff).0 == t
  {
    hide Compare, Removable, Hang;
    if t.Node? {
      RefusedUnchanged(t.left, name, cutoff);
      RefusedUnchanged(t.right, name, cutoff);
    }
  }

  /**
   Deletion succeeds exactly for a name that is found, mutable and, with a cutoff, last set
   before it. Then the name is gone and no other is affected; otherwise the tree is unchanged.
   */
  lemma {:induction false} DeleteLaw(t: Tree, name: seq<byte>, cutoff: Option<int>, other: seq<byte>)
    requires Bst(t) && NulFree(name) && NulFree(other)
    ensures var was, r := Find(t, name), Delete(t, name, cutoff);
            && (r.1 == 1 <==>
                was.Some? && !was.value.immutable && (cutoff.Some? ==> was.value.lastSet < cutoff.value))
            && (r.1 == 1 ==> Find(r.0, name).None?)
            && (r.1 != 1 ==> r == (t, 0))
            && (LowerAll(other) != LowerAll(name) ==> Find(r.0, other) == Find(t, other))
  {
    hide Bst, Contents, Find, Delete, LowerAll;
    DeleteRefines(t, name, cutoff);
    RefusedUnchanged(t, name, cutoff);
    var t' := Delete(t, name, cutoff).0;
    FindIsLookup(t, name);
    FindIsLookup(t', name);
    FindIsLookup(t, other);
    FindIsLookup(t', other);
  }

  /** Setting flags changes nothing but the one entry's flag, which is never taken back. */
  lemma {:induction false} MarkLaw(t: Tree, name: seq<byte>, immutable: bool, other: seq<byte>)
    requires Bst(t) && NulFree(name) && NulFree(other)
    ensures var was, found := Find(t, name), Find(Mark(t, name, immutable), name);
            && (was.None? ==> found.None?)
            && (was.Some? ==>
                  && found.Some? && (found.value.immutable <==> was.value.immutable || immutable)
                  && found.value == was.value.(immutable := found.value.immutable))
            && (LowerAll(other) != LowerAll(name) ==> Find(Mark(t, name, immutable), other) == Find(t, other))
  {
    hide Bst, Contents, Find, Mark, LowerAll;
    MarkRefines(t, name, immutable);
    var t' := Mark(t, name, immutable);
    FindIsLookup(t, name);
    FindIsLookup(t', name);
    FindIsLookup(t, other);
    FindIsLookup(t', other);
  }

  // ---------------------------------------------------------------- runs

  datatype Op =
    | SetOp(name: seq<byte>, value: seq<byte>, now: int)
    | DeleteOp(name: seq<byte>, cutoff: Option<int>)
    | MarkOp(name: seq<byte>, immutable: bool)

  predicate OpOk(op: Op) {
    NulFree(op.name) && (op.SetOp? ==> NulFree(op.value))
  }

  function Step(t: Tree, op: Op): (r: (Tree, int)) {
    match op
    case SetOp(name, value, now) => Set(t, name, value, now)
    case DeleteOp(name, cutoff) => Delete(t, name, cutoff)
    case MarkOp(name, immutable) => (Mark(t, name, immutable), 0)
  }

  function StepMap(m: Vars, op: Op): (r: (Vars, int)) {
    match op
    case SetOp(name, value, now) => SetMap(m, name, value, now)
    case DeleteOp(name, cutoff) => DeleteMap(m, name, cutoff)
    case MarkOp(name, immutable) => (MarkMap(m, name, immutable), 0)
  }

  /** The final tree and all results of a run. */
  function RunTree(t: Tree, ops: seq<Op>): (r: (Tree, seq<int>))
    decreases ops
  {
    if ops == [] then (t, [])
    else var (t1, n) := Step(t, ops[0]); var (t2, ns) := RunTree(t1, ops[1..]); (t2, [n] + ns)
  }

  function RunMap(m: Vars, ops: seq<Op>): (r: (Vars, seq<int>))
    decreases ops
  {
    if ops == [] then (m, [])
    else var (m1, n) := StepMap(m, ops[0]); var (m2, ns) := RunMap(m1, ops[1..]); (m2, [n] + ns)
  }

  /** In every run the tree stays a search tree and is indistinguishable from the map. */
  lemma {:induction false} RunRefines(t: Tree, ops: seq<Op>)
    requires Bst(t) && forall i :: 0 <= i < |ops| ==> OpOk(ops[i])
    ensures Bst(RunTree(t, ops).0)
    ensures (Contents(RunTree(t, ops).0), RunTree(t, ops).1) == RunMap(Contents(t), ops)
    decreases ops
  {
    if ops != [] {
      var t1 := Step(t, ops[0]).0;
      match ops[0]
      case SetOp(name, value, now) =>
        SetRefines(t, name, value, now);
        RunRefines(t1, ops[1..]);
      case DeleteOp(name, cutoff) =>
        DeleteRefines(t, name, cutoff);
        RunRefines(t1, ops[1..]);
      case MarkOp(name, immutable) =>
        MarkRefines(t, name, immutable);
        RunRefines(t1, ops[1..]);
    }
  }

  /** In every run from every search tree an immutable variable keeps its name, value and flag. */
  lemma {:induction false} ImmutableSurvives(t: Tree, ops: seq<Op>, name: seq<byte>)
    requires Bst(t) && NulFree(name) && forall i :: 0 <= i < |ops| ==> OpOk(ops[i])
    requires Find(t, name).Some? && Find(t, name).value.immutable
    ensures var e, r := Find(t, name).value, Find(RunTree(t, ops).0, name);
            r.Some? && r.value == e.(lastSet := r.value.lastSet)
  {
    hide RunTree, RunMap, Bst, Find, Contents;
    FindIsLookup(t, name);
    RunRefines(t, ops);
    FindIsLookup(RunTree(t, ops).0, name);
    ImmutableStays(Contents(t), ops, Key(name));
  }

  lemma {:induction false} ImmutableStays(m: Vars, ops: seq<Op>, k: seq<byte>)
    requires k in m && m[k].immutable
    ensures var m' := RunMap(m, ops).0;
            k in m' && m'[k] == m[k].(lastSet := m'[k].lastSet)
    decreases ops
  {
    if ops != [] {
      var m1 := StepMap(m, ops[0]).0;
      assert k in m1 && m1[k] == m[k].(lastSet := m1[k].lastSet);
      ImmutableStays(m1, ops[1..], k);
    }
  }

  /** An operation touches no variable but its own. */
  lemma {:induction false} OthersUntouched(m: Vars, op: Op, k: seq<byte>)
    requires k != Key(op.name)
    ensures var m' := StepMap(m, op).0; (k in m' <==> k in m) && (k in m ==> m'[k] == m[k])
  {
  }

  /**
   Whatever tree a run from a search tree builds, a value read back through quoting and
   parsing is the stored one exactly when it is printable and its encoding fits.
   */
  lemma {:induction false} StoredValueReadsBackIff(start: Tree, ops: seq<Op>, name: seq<byte>)
    requires Bst(start) && NulFree(name) && forall i :: 0 <= i < |ops| ==> OpOk(ops[i])
    requires Find(RunTree(start, ops).0, name).Some?
    ensures var e := Find(RunTree(start, ops).0, name).value;
            ReadBack(DEFAULTS, e.val) == [e.raw] <==> AllPrintable(e.raw) && |Encode(e.raw)| < VALUE_SIZE
  {
    var t := RunTree(start, ops).0;
    RunRefines(start, ops);
    FindIsLookup(t, name);
    ContentsKeyed(t, Key(name));
    var e := Find(t, name).value;
    EncodeNulFree(e.raw);
    hide ReadBack;
    StoredValueRoundTripIff(DEFAULTS, e.raw, VALUE_SIZE);
  }
}
