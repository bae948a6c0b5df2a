/**
 The variable tree of src/common/state.c in memory: nodes linked by pointers and edited in
 place by loops that walk a pointer to a pointer. Each operation is proved to do to the
 linked tree what the function of the same name in StateTree does to a value.
 */
module StateNodes {
  import opened CBytes
  import opened StateTree

  class Cell {
    var e: Entry
    var left: Cell?
    var right: Cell?

    constructor (e: Entry)
      ensures this.e == e && left == null && right == null
    {
      this.e, left, right := e, null, null;
    }
  }

  /** Which cells hang where. */
  datatype Shape = Nil | Fork(cell: Cell, left: Shape, right: Shape)

  ghost function Cells(s: Shape): (r: set<Cell>) {
    if s.Nil? then {} else {s.cell} + Cells(s.left) + Cells(s.right)
  }

  /** No cell is reachable twice. */
  ghost predicate Distinct(s: Shape) {
    s.Fork? ==>
      && s.cell !in Cells(s.left) && s.cell !in Cells(s.right) && Cells(s.left) !! Cells(s.right)
      && Distinct(s.left) && Distinct(s.right)
  }

  ghost predicate Linked(n: Cell?, s: Shape)
    reads Cells(s)
  {
    match s
    case Nil => n == null
    case Fork(c, l, r) => n == c && Linked(c.left, l) && Linked(c.right, r)
  }

  ghost function TreeOf(s: Shape): (t: Tree)
    reads Cells(s)
  {
    match s
    case Nil => Leaf
    case Fork(c, l, r) => Node(c.e, TreeOf(l), TreeOf(r))
  }

  // ---------------------------------------------------------------- a tree with a hole

  /** The way from the root down to the link nptr points at. */
  datatype Way =
    | Top
    | InLeft(cell: Cell, right: Shape, up: Way)
    | InRight(cell: Cell, left: Shape, up: Way)

  ghost function Beside(w: Way): (s: Shape)
    requires !w.Top?
  {
    if w.InLeft? then w.right else w.left
  }

  ghost function WayCells(w: Way): (r: set<Cell>) {
    if w.Top? then {} else {w.cell} + Cells(Beside(w)) + WayCells(w.up)
  }

  ghost predicate WayDistinct(w: Way) {
    !w.Top? ==>
      && w.cell !in Cells(Beside(w)) && w.cell !in WayCells(w.up) && Cells(Beside(w)) !! WayCells(w.up)
      && Distinct(Beside(w)) && WayDistinct(w.up)
  }

  /** Starting from root, the way leads to the link that holds hole. */
  ghost predicate Leads(root: Cell?, w: Way, hole: Cell?)
    reads WayCells(w)
  {
    match w
    case Top => root == hole
    case InLeft(c, r, up) => c.left == hole && Linked(c.right, r) && Leads(root, up, c)
    case InRight(c, l, up) => c.right == hole && Linked(c.left, l) && Leads(root, up, c)
  }

  ghost function Fill(w: Way, s: Shape): (r: Shape)
    decreases w
  {
    match w
    case Top => s
    case InLeft(c, r, up) => Fill(up, Fork(c, s, r))
    case InRight(c, l, up) => Fill(up, Fork(c, l, s))
  }

  ghost function Plug(w: Way, t: Tree): (r: Tree)
    reads WayCells(w)
    decreases w
  {
    match w
    case Top => t
    case InLeft(c, r, up) => Plug(up, Node(c.e, t, TreeOf(r)))
    case InRight(c, l, up) => Plug(up, Node(c.e, TreeOf(l), t))
  }

  /** Every turn on the way is the one strcasecmp takes for this name. */
  ghost predicate Follows(w: Way, name: seq<byte>)
    reads WayCells(w)
  {
    match w
    case Top => true
    case InLeft(c, _, up) => Compare(c.e.name, name) > 0 && Follows(up, name)
    case InRight(c, _, up) => Compare(c.e.name, name) < 0 && Follows(up, name)
  }

  lemma {:induction false} FillLinked(root: Cell?, w: Way, n: Cell?, s: Shape)
    requires Leads(root, w, n) && Linked(n, s)
    ensures Linked(root, Fill(w, s))
    decreases w
  {
    match w
    case Top =>
    case InLeft(c, r, up) => FillLinked(root, up, c, Fork(c, s, r));
    case InRight(c, l, up) => FillLinked(root, up, c, Fork(c, l, s));
  }

  lemma {:induction false} FillTree(w: Way, s: Shape)
    ensures TreeOf(Fill(w, s)) == Plug(w, TreeOf(s))
    decreases w
  {
    match w
    case Top =>
    case InLeft(c, r, up) => FillTree(up, Fork(c, s, r));
    case InRight(c, l, up) => FillTree(up, Fork(c, l, s));
  }

  lemma {:induction false} FillDistinct(w: Way, s: Shape)
    requires WayDistinct(w) && Distinct(s) && WayCells(w) !! Cells(s)
    ensures Distinct(Fill(w, s)) && Cells(Fill(w, s)) == WayCells(w) + Cells(s)
    decreases w
  {
    match w
    case Top =>
    case InLeft(c, r, up) => FillDistinct(up, Fork(c, s, r));
    case InRight(c, l, up) => FillDistinct(up, Fork(c, l, s));
  }

  lemma {:induction false} SetAlong(w: Way, t: Tree, name: seq<byte>, value: seq<byte>, now: int)
    requires Follows(w, name)
    ensures Set(Plug(w, t), name, value, now) ==
            (Plug(w, Set(t, name, value, now).0), Set(t, name, value, now).1)
    decreases w
  {
    match w
    case Top =>
    case InLeft(c, r, up) => SetAlong(up, Node(c.e, t, TreeOf(r)), name, value, now);
    case InRight(c, l, up) => SetAlong(up, Node(c.e, TreeOf(l), t), name, value, now);
  }

  lemma {:induction false} DeleteAlong(w: Way, t: Tree, name: seq<byte>, cutoff: Option<int>)
    requires Follows(w, name)
    ensures Delete(Plug(w, t), name, cutoff) == (Plug(w, Delete(t, name, cutoff).0), Delete(t, name, cutoff).1)
    decreases w
  {
    match w
    case Top =>
    case InLeft(c, r, up) => DeleteAlong(up, Node(c.e, t, TreeOf(r)), name, cutoff);
    case InRight(c, l, up) => DeleteAlong(up, Node(c.e, TreeOf(l), t), name, cutoff);
  }

  lemma {:induction false} MarkAlong(w: Way, t: Tree, name: seq<byte>, immutable: bool)
    requires Follows(w, name)
    ensures Mark(Plug(w, t), name, immutable) == Plug(w, Mark(t, name, immutable))
    decreases w
  {
    match w
    case Top =>
    case InLeft(c, r, up) => MarkAlong(up, Node(c.e, t, TreeOf(r)), name, immutable);
    case InRight(c, l, up) => MarkAlong(up, Node(c.e, TreeOf(l), t), name, immutable);
  }

  lemma {:induction false} HangAlong(w: Way, t: Tree, sub: Tree)
    requires sub.Node? && Follows(w, sub.e.name)
    ensures Hang(Plug(w, t), sub) == (Plug(w, Hang(t, sub).0), Hang(t, sub).1)
    decreases w
  {
    match w
    case Top =>
    case InLeft(c, r, up) => HangAlong(up, Node(c.e, t, TreeOf(r)), sub);
    case InRight(c, l, up) => HangAlong(up, Node(c.e, TreeOf(l), t), sub);
  }

  /** Every subtree of a search tree is one. */
  lemma {:induction false} SubtreeBst(w: Way, t: Tree)
    requires Bst(Plug(w, t))
    ensures Bst(t)
    decreases w
  {
    match w
    case Top =>
    case InLeft(c, r, up) => SubtreeBst(up, Node(c.e, t, TreeOf(r)));
    case InRight(c, l, up) => SubtreeBst(up, Node(c.e, TreeOf(l), t));
  }

  /** A place in a tree: the link w leads to holds n, below which hangs s; nothing overlaps. */
  ghost predicate Place(root: Cell?, w: Way, n: Cell?, s: Shape)
    reads WayCells(w), Cells(s)
  {
    && Leads(root, w, n) && Linked(n, s)
    && WayDistinct(w) && Distinct(s) && WayCells(w) !! Cells(s)
  }

  /** The variables that stand for nptr: the parent cell and which of its links, or the root. */
  ghost predicate IsLink(w: Way, parent: Cell?, goLeft: bool) {
    (w.Top? <==> parent == null) && (!w.Top? ==> w.cell == parent && goLeft == w.InLeft?)
  }

  lemma {:induction false} Filled(root: Cell?, w: Way, n: Cell?, s: Shape)
    requires Place(root, w, n, s)
    ensures var whole := Fill(w, s);
            && Linked(root, whole) && Distinct(whole) && Cells(whole) == WayCells(w) + Cells(s)
            && TreeOf(whole) == Plug(w, TreeOf(s))
  {
    FillLinked(root, w, n, s);
    FillDistinct(w, s);
    FillTree(w, s);
  }

  /** The loop all operations share: walk down until the name is found or the link is empty. */
  method Walk(root: Cell?, ghost shape: Shape, name: seq<byte>)
    returns (cur: Cell?, parent: Cell?, goLeft: bool, ghost w: Way, ghost below: Shape)
    requires Linked(root, shape) && Distinct(shape)
    ensures Place(root, w, cur, below) && Fill(w, below) == shape && IsLink(w, parent, goLeft)
    ensures Follows(w, name) && (cur != null ==> Compare(cur.e.name, name) == 0)
  {
    cur, parent, goLeft, w, below := root, null, false, Top, shape;
    while cur != null
      invariant Place(root, w, cur, below) && Fill(w, below) == shape && IsLink(w, parent, goLeft)
      invariant Follows(w, name)
      decreases below
    {
      var d := Compare(cur.e.name, name);
      if d > 0 {
        w, below := InLeft(cur, below.right, w), below.left;
        parent, goLeft, cur := cur, true, cur.left;
      } else if d < 0 {
        w, below := InRight(cur, below.left, w), below.right;
        parent, goLeft, cur := cur, false, cur.right;
      } else {
        return;
      }
    }
  }

  /** Writing a new pointer through the link the way ends in. */
  method Store(root: Cell?, parent: Cell?, goLeft: bool, n: Cell?, ghost w: Way, ghost hole: Cell?, ghost s: Shape)
    returns (root': Cell?)
    requires IsLink(w, parent, goLeft) && Leads(root, w, hole) && WayDistinct(w)
    requires Linked(n, s) && Distinct(s) && WayCells(w) !! Cells(s)
    modifies if parent == null then {} else {parent}
    ensures Place(root', w, n, s)
    ensures TreeOf(s) == old(TreeOf(s)) && forall t :: Plug(w, t) == old(Plug(w, t))
  {
    if parent == null {
      return n;
    }
    root' := root;
    if goLeft {
      parent.left := n;
    } else {
      parent.right := n;
    }
  }

  /**
   st_tree_node_add: the subtree below s is hung into the tree below t. The result is the
   new content of the link t was read from; dup reports the branch that gives up.
   */
  method HangBelow(t: Cell?, s: Cell?, ghost ts: Shape, ghost ss: Shape, ghost repr: set<Cell>)
    returns (t': Cell?, dup: bool, ghost shape: Shape)
    requires Linked(t, ts) && Linked(s, ss) && Distinct(ts) && Distinct(ss) && Cells(ts) !! Cells(ss)
    requires Cells(ts) + Cells(ss) <= repr
    modifies Cells(ts)
    ensures Linked(t', shape) && Distinct(shape) && Cells(shape) <= Cells(ts) + Cells(ss)
    ensures (TreeOf(shape), dup) == Hang(old(TreeOf(ts)), old(TreeOf(ss)))
  {
    if s == null {
      return t, false, ts;
    }
    var cur, parent, goLeft;
    ghost var w, below;
    ghost var sub := TreeOf(ss);
    cur, parent, goLeft, w, below := Walk(t, ts, s.e.name);
    assert Linked(s, ss) && TreeOf(ss) == sub;
    Filled(t, w, cur, below);
    HangAlong(w, TreeOf(below), TreeOf(ss));
    if cur != null {
      return t, true, ts;
    }
    t' := Store(t, parent, goLeft, s, w, cur, ss);
    dup, shape := false, Fill(w, ss);
    Filled(t', w, s, ss);
  }

  /** Overwriting the entry of the cell a way leads to. */
  method Overwrite(root: Cell?, cur: Cell, e: Entry, ghost w: Way, ghost below: Shape)
    requires Place(root, w, cur, below) && below.Fork?
    modifies cur
    ensures Place(root, w, cur, below)
    ensures TreeOf(below) == Node(e, old(TreeOf(below.left)), old(TreeOf(below.right)))
    ensures forall t :: Plug(w, t) == old(Plug(w, t))
  {
    cur.e := e;
  }

  method SetBelow(root: Cell?, name: seq<byte>, value: seq<byte>, now: int, ghost shape: Shape, ghost repr: set<Cell>)
    returns (root': Cell?, result: int, ghost shape': Shape)
    requires Linked(root, shape) && Distinct(shape) && Cells(shape) <= repr
    modifies Cells(shape)
    ensures Linked(root', shape') && Distinct(shape') && fresh(Cells(shape') - Cells(shape))
    ensures (TreeOf(shape'), result) == Set(old(TreeOf(shape)), name, value, now)
  {
    var cur, parent, goLeft;
    ghost var w, below;
    cur, parent, goLeft, w, below := Walk(root, shape, name);
    assert TreeOf(shape) == old(TreeOf(shape));
    Filled(root, w, cur, below);
    SetAlong(w, TreeOf(below), name, value, now);
    if cur != null {
      var (e, changed) := Update(cur.e, value, now);
      Overwrite(root, cur, e, w, below);
      Filled(root, w, cur, below);
      return root, changed, shape;
    }
    var node := new Cell(Fresh(name, value, now));
    ghost var added := Fork(node, Nil, Nil);
    root' := Store(root, parent, goLeft, node, w, cur, added);
    result, shape' := 1, Fill(w, added);
    Filled(root', w, node, added);
  }

  method MarkBelow(root: Cell?, name: seq<byte>, immutable: bool, ghost shape: Shape, ghost repr: set<Cell>)
    requires Linked(root, shape) && Distinct(shape) && Cells(shape) <= repr
    modifies Cells(shape)
    ensures Linked(root, shape) && TreeOf(shape) == Mark(old(TreeOf(shape)), name, immutable)
  {
    var cur, parent, goLeft;
    ghost var w, below;
    cur, parent, goLeft, w, below := Walk(root, shape, name);
    assert TreeOf(shape) == old(TreeOf(shape));
    Filled(root, w, cur, below);
    MarkAlong(w, TreeOf(below), name, immutable);
    if cur != null {
      Overwrite(root, cur, Marked(cur.e, immutable), w, below);
      Filled(root, w, cur, below);
    }
  }

  /** The left subtree of cur is hung below its right one; the way to cur is not affected. */
  method Rehang(root: Cell?, cur: Cell, ghost w: Way, ghost below: Shape, ghost repr: set<Cell>)
    returns (dup: bool, ghost hung: Shape)
    requires Place(root, w, cur, below) && below.Fork? && WayCells(w) + Cells(below) <= repr
    modifies Cells(below)
    ensures Leads(root, w, cur) && Linked(cur.right, hung) && Distinct(hung)
    ensures Cells(hung) <= Cells(below.left) + Cells(below.right)
    ensures (TreeOf(hung), dup) == Hang(old(TreeOf(below.right)), old(TreeOf(below.left)))
    ensures forall t :: Plug(w, t) == old(Plug(w, t))
  {
    hide Hang, Compare;
    var right;
    right, dup, hung := HangBelow(cur.right, cur.left, below.right, below.left, repr);
    ghost var tree := TreeOf(hung);
    cur.right := right;
    assert cur !in Cells(hung) && cur !in WayCells(w);
    assert Linked(right, hung) && TreeOf(hung) == tree;
  }

  method DeleteBelow(root: Cell?, name: seq<byte>, cutoff: Option<int>, ghost shape: Shape, ghost repr: set<Cell>)
    returns (root': Cell?, result: int, dup: bool, ghost shape': Shape)
    requires Linked(root, shape) && Distinct(shape) && Cells(shape) <= repr
    modifies Cells(shape)
    ensures Linked(root', shape') && Distinct(shape') && Cells(shape') <= Cells(shape)
    ensures (TreeOf(shape'), result) == Delete(old(TreeOf(shape)), name, cutoff)
    ensures Bst(old(TreeOf(shape))) ==> !dup
  {
    hide Hang, Compare, Find;
    var cur, parent, goLeft;
    ghost var w, below, hung;
    cur, parent, goLeft, w, below := Walk(root, shape, name);
    assert TreeOf(shape) == old(TreeOf(shape));
    Filled(root, w, cur, below);
    DeleteAlong(w, TreeOf(below), name, cutoff);
    if cur == null || !Removable(cur.e, cutoff) {
      return root, 0, false, shape;
    }
    if Bst(TreeOf(shape)) {
      ghost var t := TreeOf(below);
      SubtreeBst(w, t);
      HangRefines(t.right, t.left, t.e.name);
    }
    dup, hung := Rehang(root, cur, w, below, repr);
    root' := Store(root, parent, goLeft, cur.right, w, cur, hung);
    result, shape' := 1, Fill(w, hung);
    Filled(root', w, cur.right, hung);
  }

  class VarTree {
    var root: Cell?
    ghost var shape: Shape

    ghost predicate Valid()
      reads this, Cells(shape)
    {
      Linked(root, shape) && Distinct(shape)
    }

    ghost function Value(): (t: Tree)
      reads this, Cells(shape)
    {
      TreeOf(shape)
    }

    constructor ()
      ensures Valid() && Value() == Leaf && shape == Nil
    {
      root, shape := null, Nil;
    }

    /** state_tree_find */
    method FindNode(name: seq<byte>) returns (n: Cell?)
      requires Valid()
      ensures n != null ==> n in Cells(shape)
      ensures Find(Value(), name) == if n == null then None else Some(n.e)
    {
      n := root;
      ghost var below := shape;
      while n != null
        invariant Linked(n, below) && Cells(below) <= Cells(shape)
        invariant Find(TreeOf(below), name) == Find(Value(), name)
        decreases below
      {
        var d := Compare(n.e.name, name);
        if d > 0 {
          n, below := n.left, below.left;
        } else if d < 0 {
          n, below := n.right, below.right;
        } else {
          return;
        }
      }
    }

    /** state_setinfo: 1 when something was stored or changed. */
    method SetInfo(name: seq<byte>, value: seq<byte>, now: int) returns (result: int)
      requires Valid()
      modifies this, Cells(shape)
      ensures Valid() && fresh(Cells(shape) - old(Cells(shape)))
      ensures (Value(), result) == Set(old(Value()), name, value, now)
    {
      root, result, shape := SetBelow(root, name, value, now, shape, Cells(shape));
    }

    /** dstate_setflags, as far as immutability goes. */
    method MarkImmutable(name: seq<byte>, immutable: bool)
      requires Valid()
      modifies Cells(shape)
      ensures Valid() && Value() == Mark(old(Value()), name, immutable)
    {
      MarkBelow(root, name, immutable, shape, Cells(shape));
    }

    /**
     state_delinfo and, with a cutoff, state_delinfo_olderthan: 1 when a variable was removed.
     In a search tree the duplicate branch of the re-hanging is never taken.
     */
    method DeleteInfo(name: seq<byte>, cutoff: Option<int>) returns (result: int, dup: bool)
      requires Valid()
      modifies this, Cells(shape)
      ensures Valid() && Cells(shape) <= old(Cells(shape))
      ensures (Value(), result) == Delete(old(Value()), name, cutoff)
      ensures Bst(old(Value())) ==> !dup
    {
      root, result, dup, shape := DeleteBelow(root, name, cutoff, shape, Cells(shape));
    }
  }
}
