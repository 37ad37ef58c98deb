/** The red-black tree of `clib_rb` as a value: `Leaf` is the shared black sentinel,
    a `Node` holds a colour tag, two subtrees and one key/value entry. Insertion and
    removal rebuild the path they walk and rebalance it on the way back. */
module RedBlack {
  import opened ClibCommon
  import opened Ordering

  /** `clib_black` (0) and `clib_red` (1). */
  datatype Color = Black | Red

  datatype Tree<K, V> =
    | Leaf
    | Node(color: Color, left: Tree<K, V>, key: K, value: V, right: Tree<K, V>)

  /** The colour of a subtree's root; the sentinel is black. */
  function ColorOf<K, V>(t: Tree<K, V>): Color {
    if t.Leaf? then Black else t.color
  }

  /** The in-order entries: the sequence an ascending traversal visits. */
  ghost function Entries<K, V>(t: Tree<K, V>): seq<(K, V)> {
    match t
    case Leaf => []
    case Node(_, l, k, v, r) => Entries(l) + [(k, v)] + Entries(r)
  }

  /** Black nodes on the leftmost path down to the sentinel. */
  function BlackHeight<K, V>(t: Tree<K, V>): nat {
    match t
    case Leaf => 0
    case Node(c, l, _, _, _) => BlackHeight(l) + (if c == Black then 1 else 0)
  }

  /** Both subtrees of every node have the same black height. */
  ghost predicate BlackBalanced<K, V>(t: Tree<K, V>) {
    match t
    case Leaf => true
    case Node(_, l, _, _, r) => BlackBalanced(l) && BlackBalanced(r) && BlackHeight(l) == BlackHeight(r)
  }

  /** No red node has a red child. */
  ghost predicate NoRedRed<K, V>(t: Tree<K, V>) {
    match t
    case Leaf => true
    case Node(c, l, _, _, r) =>
      NoRedRed(l) && NoRedRed(r) && (c == Red ==> ColorOf(l) == Black && ColorOf(r) == Black)
  }

  /** The red rule holds below the root, which may be a red node with a red child. */
  ghost predicate AlmostNoRedRed<K, V>(t: Tree<K, V>) {
    match t
    case Leaf => true
    case Node(_, l, _, _, r) => NoRedRed(l) && NoRedRed(r)
  }

  /** The colouring invariants the tree keeps between public operations. */
  ghost predicate IsRedBlack<K, V>(t: Tree<K, V>) {
    ColorOf(t) == Black && NoRedRed(t) && BlackBalanced(t)
  }

  /** The black counts of all root-to-sentinel paths. */
  ghost function PathBlackCounts<K, V>(t: Tree<K, V>): set<nat> {
    match t
    case Leaf => {0}
    case Node(c, l, _, _, r) =>
      var b := if c == Black then 1 else 0;
      set n | n in PathBlackCounts(l) + PathBlackCounts(r) :: n + b
  }

  /** A black-balanced tree has one black count on every path: its black height. */
  lemma {:induction false} SamePathBlackCounts<K, V>(t: Tree<K, V>)
    requires BlackBalanced(t)
    ensures PathBlackCounts(t) == {BlackHeight(t)}
  {
    match t
    case Leaf =>
    case Node(c, l, _, _, r) =>
      SamePathBlackCounts(l);
      SamePathBlackCounts(r);
      var b := if c == Black then 1 else 0;
      assert PathBlackCounts(l) + PathBlackCounts(r) == {BlackHeight(l)};
      assert BlackHeight(l) + b in PathBlackCounts(t);
  }

  function Paint<K, V>(c: Color, t: Tree<K, V>): Tree<K, V> {
    match t
    case Leaf => Leaf
    case Node(_, l, k, v, r) => Node(c, l, k, v, r)
  }

  /** Builds a black node over `l`, repairing a red-red violation in `l` by one or two
      rotations and a recolouring (the left-hand insertion fixup). */
  function BalanceLeft<K, V>(l: Tree<K, V>, k: K, v: V, r: Tree<K, V>): Tree<K, V> {
    match l
    case Node(Red, Node(Red, t1, k1, v1, t2), k2, v2, t3) =>
      Node(Red, Node(Black, t1, k1, v1, t2), k2, v2, Node(Black, t3, k, v, r))
    case Node(Red, t1, k1, v1, Node(Red, t2, k2, v2, t3)) =>
      Node(Red, Node(Black, t1, k1, v1, t2), k2, v2, Node(Black, t3, k, v, r))
    case _ => Node(Black, l, k, v, r)
  }

  /** The mirror image of `BalanceLeft`, for a violation in the right subtree. */
  function BalanceRight<K, V>(l: Tree<K, V>, k: K, v: V, r: Tree<K, V>): Tree<K, V> {
    match r
    case Node(Red, t1, k1, v1, Node(Red, t2, k2, v2, t3)) =>
      Node(Red, Node(Black, l, k, v, t1), k1, v1, Node(Black, t2, k2, v2, t3))
    case Node(Red, Node(Red, t1, k1, v1, t2), k2, v2, t3) =>
      Node(Red, Node(Black, l, k, v, t1), k1, v1, Node(Black, t2, k2, v2, t3))
    case _ => Node(Black, l, k, v, r)
  }

  /** Descends by the comparator and hangs a new red node at the sentinel it reaches;
      an existing equal key leaves the subtree as it is. */
  function Ins<K, V>(cmp: (K, K) -> int, k: K, v: V, t: Tree<K, V>): (r: Tree<K, V>)
    ensures r.Node?
  {
    match t
    case Leaf => Node(Red, Leaf, k, v, Leaf)
    case Node(c, l, x, y, r) =>
      if cmp(k, x) < 0 then
        (if c == Black then BalanceLeft(Ins(cmp, k, v, l), x, y, r) else Node(Red, Ins(cmp, k, v, l), x, y, r))
      else if cmp(k, x) > 0 then
        (if c == Black then BalanceRight(l, x, y, Ins(cmp, k, v, r)) else Node(Red, l, x, y, Ins(cmp, k, v, r)))
      else t
  }

  /** `c_rb_insert` on a key not yet present: insert, then colour the root black. */
  function Insert<K, V>(cmp: (K, K) -> int, k: K, v: V, t: Tree<K, V>): (r: Tree<K, V>)
    ensures r.Node? && r.color == Black
  {
    Paint(Black, Ins(cmp, k, v, t))
  }

  // ---------------------------------------------------------------------------
  // Colouring invariants under insertion

  lemma PaintKeeps<K, V>(c: Color, t: Tree<K, V>)
    ensures Entries(Paint(c, t)) == Entries(t)
    ensures BlackBalanced(t) ==> BlackBalanced(Paint(c, t))
    ensures NoRedRed(t) ==> AlmostNoRedRed(Paint(c, t))
    ensures AlmostNoRedRed(t) && c == Black ==> NoRedRed(Paint(c, t))
    ensures t.Node? && c == Black && t.color == Red ==> BlackHeight(Paint(c, t)) == BlackHeight(t) + 1
    ensures t.Node? && c == Red && t.color == Black ==> BlackHeight(Paint(c, t)) + 1 == BlackHeight(t)
    ensures t.Leaf? || c == ColorOf(t) ==> BlackHeight(Paint(c, t)) == BlackHeight(t)
  {
  }

  lemma BalanceLeftEntries<K, V>(l: Tree<K, V>, k: K, v: V, r: Tree<K, V>)
    ensures Entries(BalanceLeft(l, k, v, r)) == Entries(l) + [(k, v)] + Entries(r)
  {
  }

  lemma BalanceRightEntries<K, V>(l: Tree<K, V>, k: K, v: V, r: Tree<K, V>)
    ensures Entries(BalanceRight(l, k, v, r)) == Entries(l) + [(k, v)] + Entries(r)
  {
  }

  /** The left fixup turns an almost-valid left subtree into a valid tree one black
      level higher. */
  lemma BalanceLeftInvariant<K, V>(l: Tree<K, V>, k: K, v: V, r: Tree<K, V>)
    requires AlmostNoRedRed(l) && NoRedRed(r)
    requires BlackBalanced(l) && BlackBalanced(r) && BlackHeight(l) == BlackHeight(r)
    ensures NoRedRed(BalanceLeft(l, k, v, r)) && BlackBalanced(BalanceLeft(l, k, v, r))
    ensures BlackHeight(BalanceLeft(l, k, v, r)) == BlackHeight(l) + 1
  {
  }

  lemma BalanceRightInvariant<K, V>(l: Tree<K, V>, k: K, v: V, r: Tree<K, V>)
    requires NoRedRed(l) && AlmostNoRedRed(r)
    requires BlackBalanced(l) && BlackBalanced(r) && BlackHeight(l) == BlackHeight(r)
    ensures NoRedRed(BalanceRight(l, k, v, r)) && BlackBalanced(BalanceRight(l, k, v, r))
    ensures BlackHeight(BalanceRight(l, k, v, r)) == BlackHeight(l) + 1
  {
  }

  /** Insertion keeps the black height and breaks the red rule at most at the root,
      and not even there below a black root. */
  lemma {:induction false} InsInvariant<K, V>(cmp: (K, K) -> int, k: K, v: V, t: Tree<K, V>)
    requires NoRedRed(t) && BlackBalanced(t)
    ensures AlmostNoRedRed(Ins(cmp, k, v, t)) && BlackBalanced(Ins(cmp, k, v, t))
    ensures ColorOf(t) == Black ==> NoRedRed(Ins(cmp, k, v, t))
    ensures BlackHeight(Ins(cmp, k, v, t)) == BlackHeight(t)
    ensures Ins(cmp, k, v, t).Node?
  {
    match t
    case Leaf =>
    case Node(c, l, x, y, r) =>
      if cmp(k, x) < 0 {
        InsInvariant(cmp, k, v, l);
        if c == Black {
          BalanceLeftInvariant(Ins(cmp, k, v, l), x, y, r);
        }
      } else if cmp(k, x) > 0 {
        InsInvariant(cmp, k, v, r);
        if c == Black {
          BalanceRightInvariant(l, x, y, Ins(cmp, k, v, r));
        }
      }
  }

  /** `Insert` keeps the red-black invariants. */
  lemma InsertInvariant<K, V>(cmp: (K, K) -> int, k: K, v: V, t: Tree<K, V>)
    requires IsRedBlack(t)
    ensures IsRedBlack(Insert(cmp, k, v, t))
  {
    InsInvariant(cmp, k, v, t);
    PaintKeeps(Black, Ins(cmp, k, v, t));
  }

  // ---------------------------------------------------------------------------
  // Removal

  /** Rebuilds a node whose left subtree lost one black level (the left-hand
      deletion fixup). */
  function BalDelLeft<K, V>(l: Tree<K, V>, k: K, v: V, r: Tree<K, V>): Tree<K, V> {
    if l.Node? && l.color == Red then Node(Red, Paint(Black, l), k, v, r)
    else match r
      case Node(Black, t2, k2, v2, t3) => BalanceRight(l, k, v, Node(Red, t2, k2, v2, t3))
      case Node(Red, Node(Black, t2, k2, v2, t3), k3, v3, t4) =>
        Node(Red, Node(Black, l, k, v, t2), k2, v2, BalanceRight(t3, k3, v3, Paint(Red, t4)))
      case _ => Node(Red, l, k, v, r)
  }

  /** The mirror image of `BalDelLeft`, for a right subtree that lost a black level. */
  function BalDelRight<K, V>(l: Tree<K, V>, k: K, v: V, r: Tree<K, V>): Tree<K, V> {
    if r.Node? && r.color == Red then Node(Red, l, k, v, Paint(Black, r))
    else match l
      case Node(Black, t1, k1, v1, t2) => BalanceLeft(Node(Red, t1, k1, v1, t2), k, v, r)
      case Node(Red, t1, k1, v1, Node(Black, t2, k2, v2, t3)) =>
        Node(Red, BalanceLeft(Paint(Red, t1), k1, v1, t2), k2, v2, Node(Black, t3, k, v, r))
      case _ => Node(Red, l, k, v, r)
  }

  /** Splices the two subtrees of a removed node into one tree. */
  function Join<K, V>(l: Tree<K, V>, r: Tree<K, V>): Tree<K, V> {
    match (l, r)
    case (Leaf, _) => r
    case (_, Leaf) => l
    case (Node(Red, t1, k1, v1, t2), Node(Red, t3, k3, v3, t4)) =>
      var m := Join(t2, t3);
      if m.Node? && m.color == Red then
        Node(Red, Node(Red, t1, k1, v1, m.left), m.key, m.value, Node(Red, m.right, k3, v3, t4))
      else Node(Red, t1, k1, v1, Node(Red, m, k3, v3, t4))
    case (Node(Black, t1, k1, v1, t2), Node(Black, t3, k3, v3, t4)) =>
      var m := Join(t2, t3);
      if m.Node? && m.color == Red then
        Node(Red, Node(Black, t1, k1, v1, m.left), m.key, m.value, Node(Black, m.right, k3, v3, t4))
      else BalDelLeft(t1, k1, v1, Node(Black, m, k3, v3, t4))
    case (_, Node(Red, t2, k2, v2, t3)) => Node(Red, Join(l, t2), k2, v2, t3)
    case (Node(Red, t1, k1, v1, t2), _) => Node(Red, t1, k1, v1, Join(t2, r))
  }

  /** A non-sentinel black subtree, whose removal step can lose a black level. */
  predicate IsBlackNode<K, V>(t: Tree<K, V>) {
    t.Node? && t.color == Black
  }

  /** Descends by the comparator and splices out the node holding `k`, if any. */
  function Del<K, V>(cmp: (K, K) -> int, k: K, t: Tree<K, V>): Tree<K, V> {
    match t
    case Leaf => Leaf
    case Node(_, l, x, y, r) =>
      if cmp(k, x) < 0 then
        (if IsBlackNode(l) then BalDelLeft(Del(cmp, k, l), x, y, r) else Node(Red, Del(cmp, k, l), x, y, r))
      else if cmp(k, x) > 0 then
        (if IsBlackNode(r) then BalDelRight(l, x, y, Del(cmp, k, r)) else Node(Red, l, x, y, Del(cmp, k, r)))
      else Join(l, r)
  }

  /** `c_rb_remove`: remove, then colour the root black. */
  function Delete<K, V>(cmp: (K, K) -> int, k: K, t: Tree<K, V>): (r: Tree<K, V>)
    ensures r.Leaf? || r.color == Black
    ensures t.Leaf? ==> r.Leaf?
  {
    Paint(Black, Del(cmp, k, t))
  }

  // ---------------------------------------------------------------------------
  // Colouring invariants under removal

  lemma BalDelLeftInvariant<K, V>(l: Tree<K, V>, k: K, v: V, r: Tree<K, V>)
    requires BlackBalanced(l) && BlackBalanced(r) && BlackHeight(l) + 1 == BlackHeight(r)
    requires AlmostNoRedRed(l) && NoRedRed(r)
    ensures BlackBalanced(BalDelLeft(l, k, v, r)) && BlackHeight(BalDelLeft(l, k, v, r)) == BlackHeight(r)
    ensures AlmostNoRedRed(BalDelLeft(l, k, v, r))
    ensures ColorOf(r) == Black ==> NoRedRed(BalDelLeft(l, k, v, r))
  {
    if l.Node? && l.color == Red {
    } else {
      match r
      case Node(Black, t2, k2, v2, t3) =>
        BalanceRightInvariant(l, k, v, Node(Red, t2, k2, v2, t3));
      case Node(Red, Node(Black, t2, k2, v2, t3), k3, v3, t4) =>
        PaintKeeps(Red, t4);
        BalanceRightInvariant(t3, k3, v3, Paint(Red, t4));
      case _ =>
    }
  }

  lemma BalDelRightInvariant<K, V>(l: Tree<K, V>, k: K, v: V, r: Tree<K, V>)
    requires BlackBalanced(l) && BlackBalanced(r) && BlackHeight(l) == BlackHeight(r) + 1
    requires NoRedRed(l) && AlmostNoRedRed(r)
    ensures BlackBalanced(BalDelRight(l, k, v, r)) && BlackHeight(BalDelRight(l, k, v, r)) == BlackHeight(l)
    ensures AlmostNoRedRed(BalDelRight(l, k, v, r))
    ensures ColorOf(l) == Black ==> NoRedRed(BalDelRight(l, k, v, r))
  {
    if r.Node? && r.color == Red {
    } else {
      match l
      case Node(Black, t1, k1, v1, t2) =>
        BalanceLeftInvariant(Node(Red, t1, k1, v1, t2), k, v, r);
      case Node(Red, t1, k1, v1, Node(Black, t2, k2, v2, t3)) =>
        PaintKeeps(Red, t1);
        BalanceLeftInvariant(Paint(Red, t1), k1, v1, t2);
      case _ =>
    }
  }

  /** Splicing two valid subtrees of equal black height gives that black height, and
      a red-red pair at most at the root, none when both subtrees were black. */
  lemma {:induction false} JoinInvariant<K, V>(l: Tree<K, V>, r: Tree<K, V>)
    requires BlackBalanced(l) && BlackBalanced(r) && BlackHeight(l) == BlackHeight(r)
    requires NoRedRed(l) && NoRedRed(r)
    ensures BlackBalanced(Join(l, r)) && BlackHeight(Join(l, r)) == BlackHeight(l)
    ensures AlmostNoRedRed(Join(l, r))
    ensures ColorOf(l) == Black && ColorOf(r) == Black ==> NoRedRed(Join(l, r))
  {
    match (l, r)
    case (Leaf, _) =>
    case (_, Leaf) =>
    case (Node(Red, t1, k1, v1, t2), Node(Red, t3, k3, v3, t4)) =>
      JoinInvariant(t2, t3);
    case (Node(Black, t1, k1, v1, t2), Node(Black, t3, k3, v3, t4)) =>
      JoinInvariant(t2, t3);
      var m := Join(t2, t3);
      if !(m.Node? && m.color == Red) {
        BalDelLeftInvariant(t1, k1, v1, Node(Black, m, k3, v3, t4));
      }
    case (_, Node(Red, t2, k2, v2, t3)) =>
      JoinInvariant(l, t2);
    case (Node(Red, t1, k1, v1, t2), _) =>
      JoinInvariant(t2, r);
  }

  /** Removal from a red subtree keeps its black height and the red rule; from a
      black node it loses one black level and may leave a red root over a red child. */
  lemma {:induction false} DelInvariant<K, V>(cmp: (K, K) -> int, k: K, t: Tree<K, V>)
    requires NoRedRed(t) && BlackBalanced(t)
    ensures BlackBalanced(Del(cmp, k, t))
    ensures t.Node? && t.color == Red ==> BlackHeight(Del(cmp, k, t)) == BlackHeight(t) && NoRedRed(Del(cmp, k, t))
    ensures IsBlackNode(t) ==> BlackHeight(Del(cmp, k, t)) + 1 == BlackHeight(t) && AlmostNoRedRed(Del(cmp, k, t))
    ensures t.Leaf? ==> Del(cmp, k, t).Leaf?
  {
    match t
    case Leaf =>
    case Node(c, l, x, y, r) =>
      if cmp(k, x) < 0 {
        DelInvariant(cmp, k, l);
        if IsBlackNode(l) {
          BalDelLeftInvariant(Del(cmp, k, l), x, y, r);
        }
      } else if cmp(k, x) > 0 {
        DelInvariant(cmp, k, r);
        if IsBlackNode(r) {
          BalDelRightInvariant(l, x, y, Del(cmp, k, r));
        }
      } else {
        JoinInvariant(l, r);
      }
  }

  /** `Delete` keeps the red-black invariants. */
  lemma DeleteInvariant<K, V>(cmp: (K, K) -> int, k: K, t: Tree<K, V>)
    requires IsRedBlack(t)
    ensures IsRedBlack(Delete(cmp, k, t))
  {
    DelInvariant(cmp, k, t);
    PaintKeeps(Black, Del(cmp, k, t));
  }

  // ---------------------------------------------------------------------------
  // In-order entries

  lemma BalDelLeftEntries<K, V>(l: Tree<K, V>, k: K, v: V, r: Tree<K, V>)
    ensures Entries(BalDelLeft(l, k, v, r)) == Entries(l) + [(k, v)] + Entries(r)
  {
    if !(l.Node? && l.color == Red) {
      match r
      case Node(Black, t2, k2, v2, t3) =>
        BalanceRightEntries(l, k, v, Node(Red, t2, k2, v2, t3));
      case Node(Red, Node(Black, t2, k2, v2, t3), k3, v3, t4) =>
        BalanceRightEntries(t3, k3, v3, Paint(Red, t4));
        PaintKeeps(Red, t4);
      case _ =>
    }
  }

  lemma BalDelRightEntries<K, V>(l: Tree<K, V>, k: K, v: V, r: Tree<K, V>)
    ensures Entries(BalDelRight(l, k, v, r)) == Entries(l) + [(k, v)] + Entries(r)
  {
    if !(r.Node? && r.color == Red) {
      match l
      case Node(Black, t1, k1, v1, t2) =>
        BalanceLeftEntries(Node(Red, t1, k1, v1, t2), k, v, r);
      case Node(Red, t1, k1, v1, Node(Black, t2, k2, v2, t3)) =>
        BalanceLeftEntries(Paint(Red, t1), k1, v1, t2);
        PaintKeeps(Red, t1);
      case _ =>
    }
  }

  /** Regroupings of concatenations used by the splice proofs. */
  lemma SpliceAround<T>(a: seq<T>, p: seq<T>, x: seq<T>, y: seq<T>, q: seq<T>, d: seq<T>,
                        b: seq<T>, m: seq<T>, c: seq<T>)
    requires x + y == b + m + c
    ensures (a + p + b) + m + (c + q + d) == (a + p + x) + (y + q + d)
  {
    calc {
      (a + p + b) + m + (c + q + d);
      a + p + (b + m + c) + q + d;
      a + p + (x + y) + q + d;
      (a + p + x) + (y + q + d);
    }
  }

  lemma SpliceInside<T>(a: seq<T>, p: seq<T>, x: seq<T>, y: seq<T>, q: seq<T>, d: seq<T>, z: seq<T>)
    requires z == x + y
    ensures a + p + (z + q + d) == (a + p + x) + (y + q + d)
  {
  }

  lemma SpliceLeft<T>(a: seq<T>, b: seq<T>, p: seq<T>, c: seq<T>)
    ensures (a + b) + p + c == a + (b + p + c)
  {
  }

  lemma SpliceRight<T>(a: seq<T>, p: seq<T>, b: seq<T>, c: seq<T>)
    ensures a + p + (b + c) == (a + p + b) + c
  {
  }

  /** Splicing keeps the entries of both subtrees, in order. */
  lemma {:induction false} JoinEntries<K, V>(l: Tree<K, V>, r: Tree<K, V>)
    ensures Entries(Join(l, r)) == Entries(l) + Entries(r)
  {
    match (l, r)
    case (Leaf, _) =>
    case (_, Leaf) =>
    case (Node(c, t1, k1, v1, t2), Node(c', t3, k3, v3, t4)) =>
      if c == c' {
        JoinEntries(t2, t3);
        var m := Join(t2, t3);
        var a, d := Entries(t1), Entries(t4);
        if m.Node? && m.color == Red {
          SpliceAround(a, [(k1, v1)], Entries(t2), Entries(t3), [(k3, v3)], d,
                       Entries(m.left), [(m.key, m.value)], Entries(m.right));
        } else {
          if c == Black {
            BalDelLeftEntries(t1, k1, v1, Node(Black, m, k3, v3, t4));
          }
          SpliceInside(a, [(k1, v1)], Entries(t2), Entries(t3), [(k3, v3)], d, Entries(m));
        }
      } else if c' == Red {
        JoinEntries(l, t3);
        SpliceLeft(Entries(l), Entries(t3), [(k3, v3)], Entries(t4));
      } else {
        JoinEntries(t2, r);
        SpliceRight(Entries(t1), [(k1, v1)], Entries(t2), Entries(r));
      }
  }

  /** Insertion of a new key puts its entry between the entries below and above it. */
  lemma {:induction false} InsEntries<K(!new), V>(cmp: (K, K) -> int, k: K, v: V, t: Tree<K, V>)
    requires ValidComparator(cmp) && Sorted(cmp, Entries(t)) && NoKey(Entries(t), k)
    ensures Entries(Ins(cmp, k, v, t))
         == Below(cmp, Entries(t), k) + [(k, v)] + Above(cmp, Entries(t), k)
  {
    match t
    case Leaf =>
    case Node(c, l, x, y, r) =>
      var el, er := Entries(l), Entries(r);
      SortedParts(cmp, el, (x, y), er);
      NoKeyParts(el, (x, y), er, k);
      if cmp(k, x) < 0 {
        InsEntries(cmp, k, v, l);
        if c == Black {
          BalanceLeftEntries(Ins(cmp, k, v, l), x, y, r);
        }
        FilterLeft(cmp, el, (x, y), er, k);
        SpliceLeft(Below(cmp, el, k) + [(k, v)], Above(cmp, el, k), [(x, y)], er);
      } else if cmp(k, x) > 0 {
        InsEntries(cmp, k, v, r);
        if c == Black {
          BalanceRightEntries(l, x, y, Ins(cmp, k, v, r));
        }
        FilterRight(cmp, el, (x, y), er, k);
        Regroup5(el, [(x, y)], Below(cmp, er, k), [(k, v)], Above(cmp, er, k));
      } else {
        assert false;
      }
  }

  /** Removal leaves exactly the entries below and above the removed key. */
  lemma {:induction false} DelEntries<K(!new), V>(cmp: (K, K) -> int, k: K, t: Tree<K, V>)
    requires ValidComparator(cmp) && Sorted(cmp, Entries(t))
    ensures Entries(Del(cmp, k, t)) == Below(cmp, Entries(t), k) + Above(cmp, Entries(t), k)
  {
    match t
    case Leaf =>
    case Node(c, l, x, y, r) =>
      var el, er := Entries(l), Entries(r);
      SortedParts(cmp, el, (x, y), er);
      if cmp(k, x) < 0 {
        DelEntries(cmp, k, l);
        if IsBlackNode(l) {
          BalDelLeftEntries(Del(cmp, k, l), x, y, r);
        }
        FilterLeft(cmp, el, (x, y), er, k);
        SpliceLeft(Below(cmp, el, k), Above(cmp, el, k), [(x, y)], er);
      } else if cmp(k, x) > 0 {
        DelEntries(cmp, k, r);
        if IsBlackNode(r) {
          BalDelRightEntries(l, x, y, Del(cmp, k, r));
        }
        FilterRight(cmp, el, (x, y), er, k);
        SpliceRight(el, [(x, y)], Below(cmp, er, k), Above(cmp, er, k));
      } else {
        JoinEntries(l, r);
        FilterAt(cmp, el, (x, y), er);
      }
  }

  // ---------------------------------------------------------------------------
  // Queries

  /** `c_rb_find`: the entry whose key compares equal to `k`, if any. */
  function Lookup<K, V>(cmp: (K, K) -> int, t: Tree<K, V>, k: K): (r: Option<(K, V)>)
    ensures r.Some? ==> cmp(k, r.value.0) == 0 && r.value in Entries(t)
  {
    match t
    case Leaf => None
    case Node(_, l, x, y, r) =>
      if cmp(k, x) < 0 then Lookup(cmp, l, k)
      else if cmp(k, x) > 0 then Lookup(cmp, r, k)
      else Some((x, y))
  }

  /** `c_rb_minimum`: the entry of the leftmost node. */
  function Min<K, V>(t: Tree<K, V>): (r: Option<(K, V)>)
    ensures r.Some? <==> t.Node?
    ensures r.Some? ==> r.value in Entries(t)
  {
    match t
    case Leaf => None
    case Node(_, l, x, y, _) => if l.Leaf? then Some((x, y)) else Min(l)
  }

  /** The entry with the smallest key larger than `k`, if any. */
  function Succ<K, V>(cmp: (K, K) -> int, t: Tree<K, V>, k: K): (r: Option<(K, V)>)
    ensures r.Some? ==> cmp(k, r.value.0) < 0 && r.value in Entries(t)
  {
    match t
    case Leaf => None
    case Node(_, l, x, y, r) =>
      if cmp(k, x) < 0 then
        var s := Succ(cmp, l, k);
        if s.Some? then s else Some((x, y))
      else Succ(cmp, r, k)
  }

  /** The descent finds `k` exactly when the map of the entries holds it. */
  lemma {:induction false} LookupSpec<K(!new), V>(cmp: (K, K) -> int, t: Tree<K, V>, k: K)
    requires ValidComparator(cmp) && Sorted(cmp, Entries(t))
    ensures Lookup(cmp, t, k)
         == if k in ToMap(Entries(t)) then Some((k, ToMap(Entries(t))[k])) else None
  {
    match t
    case Leaf =>
    case Node(c, l, x, y, r) =>
      var el, er := Entries(l), Entries(r);
      SortedParts(cmp, el, (x, y), er);
      if cmp(k, x) < 0 {
        LookupSpec(cmp, l, k);
        AboveWeaken(cmp, k, x, er);
        AboveNoKey(cmp, k, er);
        ToMapLeftPart(el, (x, y), er, k);
      } else if cmp(k, x) > 0 {
        LookupSpec(cmp, r, k);
        BelowWeaken(cmp, el, x, k);
        BelowNoKey(cmp, el, k);
        ToMapRightPart(el, (x, y), er, k);
      } else {
        BelowNoKey(cmp, el, x);
        ToMapMiddle(el, (x, y), er);
      }
  }

  /** The minimum is the first entry in order. */
  lemma {:induction false} MinSpec<K, V>(t: Tree<K, V>)
    ensures Min(t) == First(Entries(t))
  {
    match t
    case Leaf =>
    case Node(_, l, x, y, r) =>
      if l.Node? {
        MinSpec(l);
        assert Entries(l) != [];
      }
  }

  /** The successor is the first entry above `k`. */
  lemma {:induction false} SuccSpec<K(!new), V>(cmp: (K, K) -> int, t: Tree<K, V>, k: K)
    requires ValidComparator(cmp) && Sorted(cmp, Entries(t))
    ensures Succ(cmp, t, k) == First(Above(cmp, Entries(t), k))
  {
    match t
    case Leaf =>
    case Node(c, l, x, y, r) =>
      var el, er := Entries(l), Entries(r);
      SortedParts(cmp, el, (x, y), er);
      if cmp(k, x) < 0 {
        SuccSpec(cmp, l, k);
        FilterLeft(cmp, el, (x, y), er, k);
      } else if cmp(k, x) > 0 {
        SuccSpec(cmp, r, k);
        FilterRight(cmp, el, (x, y), er, k);
      } else {
        SuccSpec(cmp, r, k);
        FilterAllAbove(cmp, er, x);
        FilterAt(cmp, el, (x, y), er);
      }
  }

  /** The successor of the key of the `i`-th entry is the next entry, or none after the
      last: repeated successor steps visit the entries in ascending order. */
  lemma SuccOfEntry<K(!new), V>(cmp: (K, K) -> int, t: Tree<K, V>, i: nat)
    requires ValidComparator(cmp) && Sorted(cmp, Entries(t)) && i < |Entries(t)|
    ensures Succ(cmp, t, Entries(t)[i].0)
         == if i + 1 < |Entries(t)| then Some(Entries(t)[i + 1]) else None
  {
    SuccSpec(cmp, t, Entries(t)[i].0);
    SplitAt(cmp, Entries(t), i);
  }

  // ---------------------------------------------------------------------------
  // The tree as a finite map

  /** The finite map a tree stores. */
  ghost function MapOf<K, V>(t: Tree<K, V>): map<K, V> {
    ToMap(Entries(t))
  }

  /** A binary search tree that satisfies the colouring invariants. */
  ghost predicate ValidTree<K(!new), V>(cmp: (K, K) -> int, t: Tree<K, V>) {
    ValidComparator(cmp) && IsRedBlack(t) && Sorted(cmp, Entries(t))
  }

  lemma NotInMapNoKey<K, V>(s: seq<(K, V)>, k: K)
    requires k !in ToMap(s)
    ensures NoKey(s, k)
  {
  }

  /** Inserting a new key keeps the tree valid and adds exactly that key to its map,
      at its place in key order. */
  lemma InsertSpec<K(!new), V>(cmp: (K, K) -> int, k: K, v: V, t: Tree<K, V>)
    requires ValidTree(cmp, t) && k !in MapOf(t)
    ensures ValidTree(cmp, Insert(cmp, k, v, t))
    ensures MapOf(Insert(cmp, k, v, t)) == MapOf(t)[k := v]
    ensures Entries(Insert(cmp, k, v, t))
         == Below(cmp, Entries(t), k) + [(k, v)] + Above(cmp, Entries(t), k)
  {
    NotInMapNoKey(Entries(t), k);
    InsertInvariant(cmp, k, v, t);
    InsEntries(cmp, k, v, t);
    PaintKeeps(Black, Ins(cmp, k, v, t));
    SortedInsert(cmp, Entries(t), k, v);
    ToMapInsert(cmp, Entries(t), k, v);
  }

  /** Removing a key keeps the tree valid and takes exactly that key out of its map
      (nothing changes when it was absent). */
  lemma DeleteSpec<K(!new), V>(cmp: (K, K) -> int, k: K, t: Tree<K, V>)
    requires ValidTree(cmp, t)
    ensures ValidTree(cmp, Delete(cmp, k, t))
    ensures MapOf(Delete(cmp, k, t)) == MapOf(t) - {k}
    ensures Entries(Delete(cmp, k, t)) == Below(cmp, Entries(t), k) + Above(cmp, Entries(t), k)
  {
    DeleteInvariant(cmp, k, t);
    DelEntries(cmp, k, t);
    PaintKeeps(Black, Del(cmp, k, t));
    SortedRemove(cmp, Entries(t), k);
    ToMapRemove(cmp, Entries(t), k);
  }

  /** `c_rb_empty`: the root is the sentinel exactly when the map is empty. */
  lemma EmptySpec<K, V>(t: Tree<K, V>)
    ensures t.Leaf? <==> MapOf(t) == map[]
  {
    if t.Node? {
      assert (t.key, t.value) in Entries(t);
    }
  }
}
