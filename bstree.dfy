/** The generic binary search tree `BSTree<SomeType>`.

    The element type is modelled as `int`: the tree only ever compares elements with `<`, `>`
    and `==`, and every instantiation it is used with (`int`, and `Item`, whose operators
    compare the ID only) orders its elements totally.

    A `Node*` link is a `Tree` value: `Nil` is the null pointer, `Node(left, data, right)` an
    owned node. Every node is owned by exactly one link, so the recursive helpers that rewrite
    a link in place through a `Node*&` parameter are modelled as functions that return the
    new value of that link. */
module BinarySearchTree {
  import opened Outcomes

  datatype Tree = Nil | Node(left: Tree, data: int, right: Tree)

  /** The exception classes the tree throws. */
  datatype BSTreeError = FullBSTree | EmptyBSTree | NotFoundBSTree | FoundInBSTree | NoParentBSTree

  // ---------------------------------------------------------------------------------------
  // Specification functions

  /** The values stored in a tree. */
  ghost function Contents(t: Tree): set<int>
  {
    match t
    case Nil => {}
    case Node(l, d, r) => Contents(l) + {d} + Contents(r)
  }

  /** The search tree invariant: every value in a left subtree is smaller than its node's
      value and every value in a right subtree is larger, so no value is stored twice. */
  ghost predicate Ordered(t: Tree)
  {
    match t
    case Nil => true
    case Node(l, d, r) =>
      && (forall x :: x in Contents(l) ==> x < d)
      && (forall x :: x in Contents(r) ==> d < x)
      && Ordered(l) && Ordered(r)
  }

  /** The number of nodes of a tree. */
  ghost function NodeCount(t: Tree): nat
  {
    match t
    case Nil => 0
    case Node(l, _, r) => 1 + NodeCount(l) + NodeCount(r)
  }

  /** The number of levels of a tree: 0 for the empty tree, 1 for a single node. */
  ghost function Height(t: Tree): nat
  {
    match t
    case Nil => 0
    case Node(l, _, r) => 1 + if Height(l) < Height(r) then Height(r) else Height(l)
  }

  /** Value `x` is stored in a node `d` edges below the root of `t`. */
  ghost predicate AtDepth(t: Tree, x: int, d: nat)
  {
    match t
    case Nil => false
    case Node(l, v, r) =>
      if d == 0 then v == x else AtDepth(l, x, d - 1) || AtDepth(r, x, d - 1)
  }

  /** Link `t` holds a node whose value is `x`. */
  ghost predicate Holds(t: Tree, x: int)
  {
    t.Node? && t.data == x
  }

  /** Some node of `t` has value `p` and a direct child whose value is `x`. */
  ghost predicate IsParentIn(t: Tree, p: int, x: int)
  {
    match t
    case Nil => false
    case Node(l, v, r) =>
      || (v == p && (Holds(l, x) || Holds(r, x)))
      || IsParentIn(l, p, x)
      || IsParentIn(r, p, x)
  }

  /** The value reached by following left links from the root. */
  function Leftmost(t: Tree): (m: int)
    requires t.Node?
    ensures m in Contents(t)
    ensures Ordered(t) ==> forall x :: x in Contents(t) ==> m <= x
  {
    if t.left == Nil then t.data else Leftmost(t.left)
  }

  /** The value reached by following right links from the root. */
  function Rightmost(t: Tree): (m: int)
    requires t.Node?
    ensures m in Contents(t)
    ensures Ordered(t) ==> forall x :: x in Contents(t) ==> x <= m
  {
    if t.right == Nil then t.data else Rightmost(t.right)
  }

  // ---------------------------------------------------------------------------------------
  // Private recursive helpers of BSTree

  /** Insert(ptr, item): descends by comparison and hangs a new leaf on the null link it
      reaches; an equal value on the way throws FoundInBSTree. */
  function Insert(t: Tree, item: int): (r: Result<Tree, BSTreeError>)
    ensures r.Err? ==> r.error == FoundInBSTree && item in Contents(t)
    ensures Ordered(t) ==> (r.Ok? <==> item !in Contents(t))
    ensures r.Ok? ==> Contents(r.value) == Contents(t) + {item}
    ensures r.Ok? && Ordered(t) ==> Ordered(r.value)
  {
    match t
    case Nil => Ok(Node(Nil, item, Nil))
    case Node(l, d, rt) =>
      if item < d then
        match Insert(l, item)
        case Ok(l') => Ok(Node(l', d, rt))
        case Err(e) => Err(e)
      else if item > d then
        match Insert(rt, item)
        case Ok(r') => Ok(Node(l, d, r'))
        case Err(e) => Err(e)
      else
        Err(FoundInBSTree)
  }

  /** Delete(treePtr, item), corrected: descends by comparison and removes the node holding
      `item`; reaching a null link reports NotFoundBSTree (the code as written dereferences
      it, see DeleteAsWritten). It relies on the search tree invariant, as the two-child case
      of DeleteNode searches for the predecessor by comparison. */
  function Delete(t: Tree, item: int): (r: Result<Tree, BSTreeError>)
    requires Ordered(t)
    ensures r.Ok? <==> item in Contents(t)
    ensures r.Err? ==> r.error == NotFoundBSTree
    ensures r.Ok? ==> Ordered(r.value) && Contents(r.value) == Contents(t) - {item}
    ensures r.Ok? ==> NodeCount(r.value) + 1 == NodeCount(t)
    decreases t, 1
  {
    match t
    case Nil => Err(NotFoundBSTree)
    case Node(l, d, rt) =>
      if item < d then
        match Delete(l, item)
        case Ok(l') => Ok(Node(l', d, rt))
        case Err(e) => Err(e)
      else if item > d then
        match Delete(rt, item)
        case Ok(r') => Ok(Node(l, d, r'))
        case Err(e) => Err(e)
      else
        Ok(DeleteNode(t))
  }

  /** DeleteNode(treePtr): removes the node at the root of `t` by its number of children.
      A leaf becomes null, a single child takes the node's place, and a node with two
      children takes the value of its in-order predecessor (the rightmost value of its left
      subtree), whose own node is then deleted from the left subtree. */
  function DeleteNode(t: Tree): (r: Tree)
    requires t.Node? && Ordered(t)
    ensures Ordered(r) && Contents(r) == Contents(t) - {t.data}
    ensures NodeCount(r) + 1 == NodeCount(t)
    decreases t, 0
  {
    if t.right == Nil && t.left == Nil then Nil
    else if t.left == Nil then t.right
    else if t.right == Nil then t.left
    else
      var pred := Rightmost(t.left);
      match Delete(t.left, pred)
      case Ok(l') => Node(l', pred, t.right)
      case Err(_) => assert false; t
  }

  /** Delete(treePtr, item) as written: identical to Delete except that the search does not
      test for a null link, so when `item` is absent it dereferences one. */
  function DeleteAsWritten(t: Tree, item: int): (r: Run<Tree>)
    requires Ordered(t)
    ensures r == NullDereference <==> item !in Contents(t)
    ensures r.Returns? ==> Delete(t, item) == Ok(r.value)
  {
    match t
    case Nil => NullDereference
    case Node(l, d, rt) =>
      if item < d then
        match DeleteAsWritten(l, item)
        case Returns(l') => Returns(Node(l', d, rt))
        case NullDereference => NullDereference
      else if item > d then
        match DeleteAsWritten(rt, item)
        case Returns(r') => Returns(Node(l, d, r'))
        case NullDereference => NullDereference
      else
        Returns(DeleteNode(t))
  }

  /** A one-node tree and an absent value: the documented NotFoundBSTree is reported by the
      corrected Delete, while the code as written dereferences null. */
  lemma DeleteAbsentValueDereferencesNull()
    ensures DeleteAsWritten(Node(Nil, 50, Nil), 99) == NullDereference
    ensures Delete(Node(Nil, 50, Nil), 99) == Err(NotFoundBSTree)
  {
  }

  /** Destroy(ptr): releases the children, then the node itself by DeleteNode on what is
      then a leaf; the link ends up null. */
  function Destroy(t: Tree): (r: Tree)
    requires t.Node?
    ensures r == Nil
  {
    if t.right == Nil && t.left == Nil then DeleteNode(t)
    else if t.right == Nil then DeleteNode(Node(Destroy(t.left), t.data, Nil))
    else if t.left == Nil then DeleteNode(Node(Nil, t.data, Destroy(t.right)))
    else DeleteNode(Node(Destroy(t.left), t.data, Destroy(t.right)))
  }

  /** CopyTree(copy, originalTree): a node-by-node copy; the copy is structurally equal to
      the original. */
  function CopyTree(t: Tree): (r: Tree)
    ensures r == t
  {
    match t
    case Nil => Nil
    case Node(l, d, rt) => Node(CopyTree(l), d, CopyTree(rt))
  }

  /** GetPredecessor(treePtr): follows right links to the last node and returns its value,
      which is the largest value of an ordered tree. */
  method GetPredecessor(t: Tree) returns (pred: int)
    requires t.Node?
    ensures pred == Rightmost(t)
    ensures Ordered(t) ==> pred in Contents(t) && forall x :: x in Contents(t) ==> x <= pred
  {
    var tmp := t;
    while tmp.right != Nil
      invariant tmp.Node? && Rightmost(tmp) == Rightmost(t)
      decreases tmp
    {
      tmp := tmp.right;
    }
    pred := tmp.data;
  }

  /** CountNodes(treePtr): counts the nodes by the number of children of each. */
  function CountNodes(t: Tree): (n: int)
    requires t.Node?
    ensures n == NodeCount(t) && n >= 1
  {
    if t.right == Nil && t.left == Nil then 1
    else if t.left == Nil then 1 + CountNodes(t.right)
    else if t.right == Nil then 1 + CountNodes(t.left)
    else 1 + CountNodes(t.right) + CountNodes(t.left)
  }

  /** LevelCount(treePtr): the number of levels, a leaf counting one. */
  function LevelCount(t: Tree): (n: int)
    requires t.Node?
    ensures n == Height(t) && n >= 1
  {
    if t.right == Nil && t.left == Nil then 1
    else if t.right == Nil then 1 + LevelCount(t.left)
    else if t.left == Nil then 1 + LevelCount(t.right)
    else 1 + MaxOf(LevelCount(t.left), LevelCount(t.right))
  }

  function MaxOf(a: int, b: int): int
  {
    if a < b then b else a
  }

  /** FindLevel(treePtr, item): walks the path the ordering directs `item` to and returns
      the number of edges to the node holding it; a null link throws NotFoundBSTree. The
      walk does not rely on the ordering for safety, but only on an ordered tree does it
      find every stored value. */
  function FindLevel(t: Tree, item: int): (r: Result<nat, BSTreeError>)
    ensures r.Err? ==> r.error == NotFoundBSTree
    ensures r.Ok? ==> AtDepth(t, item, r.value) && r.value < Height(t)
    ensures Ordered(t) ==> (r.Ok? <==> item in Contents(t))
  {
    match t
    case Nil => Err(NotFoundBSTree)
    case Node(l, d, rt) =>
      if d == item then Ok(0)
      else if d < item then
        match FindLevel(rt, item)
        case Ok(k) => Ok(1 + k)
        case Err(e) => Err(e)
      else
        match FindLevel(l, item)
        case Ok(k) => Ok(1 + k)
        case Err(e) => Err(e)
  }

  /** SearchForParent(treePtr, item): visits the tree in pre-order and reports the first node
      one of whose children holds `item` (the original throws that node to its caller). */
  function SearchForParent(t: Tree, item: int): (r: Option<int>)
    requires t.Node?
    ensures r.Some? ==> IsParentIn(t, r.value, item)
    ensures r.None? ==> forall p :: !IsParentIn(t, p, item)
  {
    if t.right == Nil && t.left == Nil then None
    else if t.right == Nil then
      if t.left.data == item then Some(t.data) else SearchForParent(t.left, item)
    else if t.left == Nil then
      if t.right.data == item then Some(t.data) else SearchForParent(t.right, item)
    else if t.right.data == item || t.left.data == item then Some(t.data)
    else
      match SearchForParent(t.left, item)
      case Some(p) => Some(p)
      case None => SearchForParent(t.right, item)
  }

  // ---------------------------------------------------------------------------------------
  // Traversals: each pushes the values onto the back of the queue it is given.

  /** PreOrder(tree, preorder): node, then left subtree, then right subtree. */
  function PreOrder(t: Tree, preorder: seq<int>): (r: seq<int>)
    ensures |r| == |preorder| + NodeCount(t)
  {
    match t
    case Nil => preorder
    case Node(l, d, rt) => PreOrder(rt, PreOrder(l, preorder + [d]))
  }

  /** InOrder(tree, inorder): left subtree, then node, then right subtree. */
  function InOrder(t: Tree, inorder: seq<int>): (r: seq<int>)
    ensures |r| == |inorder| + NodeCount(t)
  {
    match t
    case Nil => inorder
    case Node(l, d, rt) => InOrder(rt, InOrder(l, inorder) + [d])
  }

  /** PostOrder(tree, postorder): left subtree, then right subtree, then node. */
  function PostOrder(t: Tree, postorder: seq<int>): (r: seq<int>)
    ensures |r| == |postorder| + NodeCount(t)
  {
    match t
    case Nil => postorder
    case Node(l, d, rt) => PostOrder(rt, PostOrder(l, postorder)) + [d]
  }

  // ---------------------------------------------------------------------------------------
  // The tree object

  class BSTree {
    var root: Tree

    ghost predicate Valid()
      reads this
    {
      Ordered(root)
    }

    /** BSTree(): the empty tree. */
    constructor ()
      ensures Valid() && root == Nil
    {
      root := Nil;
    }

    /** BSTree(someTree): a deep copy of another tree. */
    constructor Copy(someTree: BSTree)
      requires someTree.Valid()
      ensures Valid() && root == someTree.root
    {
      root := CopyTree(someTree.root);
    }

    /** operator=(originalTree): this tree becomes a deep copy of the other one. */
    method Assign(originalTree: BSTree)
      requires originalTree.Valid()
      modifies this
      ensures Valid() && root == old(originalTree.root)
    {
      root := CopyTree(originalTree.root);
    }

    /** InsertItem(item): adds `item`, or throws FoundInBSTree and leaves the tree as it was
        when an equal value is stored. */
    method InsertItem(item: int) returns (r: Outcome<BSTreeError>)
      requires Valid()
      modifies this
      ensures Valid()
      ensures r.Fail? <==> item in old(Contents(root))
      ensures r.Fail? ==> r.error == FoundInBSTree && root == old(root)
      ensures r.Pass? ==> Contents(root) == old(Contents(root)) + {item}
      ensures r.Pass? ==> NodeCount(root) == old(NodeCount(root)) + 1
      ensures r.Pass? ==> Insert(old(root), item) == Ok(root)
    {
      match Insert(root, item)
      case Ok(t) =>
        OrderedSizeIsCardinality(root);
        OrderedSizeIsCardinality(t);
        root := t;
        r := Pass;
      case Err(e) =>
        r := Fail(e);
    }

    /** DeleteItem(item): on an empty tree throws EmptyBSTree; otherwise removes the stored
        value equal to `item` and returns (a copy of) the argument, or reports NotFoundBSTree
        and leaves the tree as it was (see DeleteAsWritten for the code as written). */
    method DeleteItem(item: int) returns (r: Result<int, BSTreeError>)
      requires Valid()
      modifies this
      ensures Valid()
      ensures old(root) == Nil ==> r == Err(EmptyBSTree) && root == old(root)
      ensures old(root) != Nil && item !in old(Contents(root)) ==>
                r == Err(NotFoundBSTree) && root == old(root)
      ensures item in old(Contents(root)) ==>
                && r == Ok(item)
                && Contents(root) == old(Contents(root)) - {item}
                && NodeCount(root) + 1 == old(NodeCount(root))
                && Delete(old(root), item) == Ok(root)
    {
      if IsEmpty() {
        return Err(EmptyBSTree);
      }
      var itemCopy := item;
      match Delete(root, item)
      case Ok(t) =>
        root := t;
        r := Ok(itemCopy);
      case Err(e) =>
        r := Err(e);
    }

    /** MakeEmpty(): releases every node; the tree is empty afterwards. */
    method MakeEmpty()
      modifies this
      ensures Valid() && root == Nil
    {
      if !IsEmpty() {
        root := Destroy(root);
      }
    }

    /** Size(): the number of stored values, 0 for the empty tree. */
    function Size(): (n: int)
      reads this
      ensures n == NodeCount(root)
      ensures n == 0 <==> root == Nil
    {
      if root == Nil then 0 else CountNodes(root)
    }

    /** IsFull(): the tree has no capacity limit. */
    function IsFull(): (full: bool)
      ensures !full
    {
      false
    }

    /** IsEmpty(): the root link is null. */
    function IsEmpty(): (empty: bool)
      reads this
      ensures empty <==> Contents(root) == {}
    {
      root == Nil
    }

    /** Min(): the value of the leftmost node, the smallest stored value. */
    method Min() returns (r: Result<int, BSTreeError>)
      requires Valid()
      ensures root == Nil ==> r == Err(EmptyBSTree)
      ensures root != Nil ==>
                r.Ok? && r.value in Contents(root) && forall x :: x in Contents(root) ==> r.value <= x
    {
      if IsEmpty() {
        return Err(EmptyBSTree);
      }
      var tmp := root;
      while tmp.left != Nil
        invariant tmp.Node? && Leftmost(tmp) == Leftmost(root)
        decreases tmp
      {
        tmp := tmp.left;
      }
      r := Ok(tmp.data);
    }

    /** Max(): the value of the rightmost node, the largest stored value. */
    method Max() returns (r: Result<int, BSTreeError>)
      requires Valid()
      ensures root == Nil ==> r == Err(EmptyBSTree)
      ensures root != Nil ==>
                r.Ok? && r.value in Contents(root) && forall x :: x in Contents(root) ==> x <= r.value
    {
      if IsEmpty() {
        return Err(EmptyBSTree);
      }
      var tmp := root;
      while tmp.right != Nil
        invariant tmp.Node? && Rightmost(tmp) == Rightmost(root)
        decreases tmp
      {
        tmp := tmp.right;
      }
      r := Ok(tmp.data);
    }

    /** TotalLevels(): the height as a count of levels; throws EmptyBSTree when empty. */
    function TotalLevels(): (r: Result<int, BSTreeError>)
      reads this
      ensures root == Nil ==> r == Err(EmptyBSTree)
      ensures root != Nil ==> r == Ok(Height(root)) && r.value >= 1
    {
      if IsEmpty() then Err(EmptyBSTree) else Ok(LevelCount(root))
    }

    /** Level(item): the depth of the node holding `item` (the root is at level 0). */
    function Level(item: int): (r: Result<nat, BSTreeError>)
      reads this
      ensures root == Nil ==> r == Err(EmptyBSTree)
      ensures root != Nil && r.Err? ==> r.error == NotFoundBSTree
      ensures r.Ok? ==> AtDepth(root, item, r.value)
      ensures root != Nil && Ordered(root) ==> (r.Ok? <==> item in Contents(root))
    {
      if IsEmpty() then Err(EmptyBSTree) else FindLevel(root, item)
    }

    /** Parent(item): the value of the node that has `item` as a direct child. */
    function Parent(item: int): (r: Result<int, BSTreeError>)
      reads this
      ensures root == Nil ==> r == Err(EmptyBSTree)
      ensures root != Nil && r.Err? ==> r.error == NotFoundBSTree
      ensures r.Ok? ==> IsParentIn(root, r.value, item)
      ensures root != Nil && r.Err? ==> forall p :: !IsParentIn(root, p, item)
    {
      if IsEmpty() then Err(EmptyBSTree)
      else
        match SearchForParent(root, item)
        case Some(p) => Ok(p)
        case None => Err(NotFoundBSTree)
    }
  }

  // ---------------------------------------------------------------------------------------
  // Properties

  /** In an ordered tree the node count is the number of distinct stored values. */
  lemma {:induction false} OrderedSizeIsCardinality(t: Tree)
    requires Ordered(t)
    ensures NodeCount(t) == |Contents(t)|
  {
    match t
    case Nil =>
    case Node(l, d, r) =>
      OrderedSizeIsCardinality(l);
      OrderedSizeIsCardinality(r);
      var left := Contents(l) + {d};
      assert Contents(l) * {d} == {};
      assert left !! Contents(r) by {
        forall x | x in Contents(r) ensures x !in left {
          assert d < x;
        }
      }
  }
  /** No two positions of `s` hold the same value, and values grow from left to right. */
  ghost predicate StrictlyIncreasing(s: seq<int>)
  {
    forall i, j :: 0 <= i < j < |s| ==> s[i] < s[j]
  }

  /** The traversals push their values after whatever the queue already held. */
  lemma {:induction false} PreOrderAccumulates(t: Tree, q: seq<int>)
    ensures PreOrder(t, q) == q + PreOrder(t, [])
  {
    match t
    case Nil =>
    case Node(l, d, r) =>
      var L, R := PreOrder(l, []), PreOrder(r, []);
      calc {
        PreOrder(t, q);
        PreOrder(r, PreOrder(l, q + [d]));
        { PreOrderAccumulates(r, PreOrder(l, q + [d])); }
        PreOrder(l, q + [d]) + R;
        { PreOrderAccumulates(l, q + [d]); }
        q + [d] + L + R;
      }
      assert [] + [d] == [d];
      calc {
        PreOrder(t, []);
        PreOrder(r, PreOrder(l, [d]));
        { PreOrderAccumulates(r, PreOrder(l, [d])); }
        PreOrder(l, [d]) + R;
        { PreOrderAccumulates(l, [d]); }
        [d] + L + R;
      }
  }

  lemma {:induction false} InOrderAccumulates(t: Tree, q: seq<int>)
    ensures InOrder(t, q) == q + InOrder(t, [])
  {
    match t
    case Nil =>
    case Node(l, d, r) =>
      InOrderAccumulates(l, q);
      InOrderAccumulates(r, InOrder(l, q) + [d]);
      InOrderAccumulates(r, InOrder(l, []) + [d]);
  }

  lemma {:induction false} PostOrderAccumulates(t: Tree, q: seq<int>)
    ensures PostOrder(t, q) == q + PostOrder(t, [])
  {
    match t
    case Nil =>
    case Node(l, d, r) =>
      var L, R := PostOrder(l, []), PostOrder(r, []);
      calc {
        PostOrder(t, q);
        PostOrder(r, PostOrder(l, q)) + [d];
        { PostOrderAccumulates(r, PostOrder(l, q)); }
        PostOrder(l, q) + R + [d];
        { PostOrderAccumulates(l, q); }
        q + L + R + [d];
      }
      calc {
        PostOrder(t, []);
        PostOrder(r, L) + [d];
        { PostOrderAccumulates(r, L); }
        L + R + [d];
      }
  }

  /** Each traversal of a node is its own value placed before, between or after the
      traversals of its two subtrees. */
  lemma TraversalsOfNode(l: Tree, d: int, r: Tree)
    ensures PreOrder(Node(l, d, r), []) == [d] + PreOrder(l, []) + PreOrder(r, [])
    ensures InOrder(Node(l, d, r), []) == InOrder(l, []) + [d] + InOrder(r, [])
    ensures PostOrder(Node(l, d, r), []) == PostOrder(l, []) + PostOrder(r, []) + [d]
  {
    assert [] + [d] == [d];
    PreOrderAccumulates(l, [d]);
    PreOrderAccumulates(r, PreOrder(l, [d]));
    InOrderAccumulates(r, InOrder(l, []) + [d]);
    PostOrderAccumulates(r, PostOrder(l, []));
  }

  /** Every traversal lists exactly the stored values. */
  lemma {:induction false} TraversalsListContents(t: Tree)
    ensures forall x :: x in PreOrder(t, []) <==> x in Contents(t)
    ensures forall x :: x in InOrder(t, []) <==> x in Contents(t)
    ensures forall x :: x in PostOrder(t, []) <==> x in Contents(t)
  {
    match t
    case Nil =>
    case Node(l, d, r) =>
      TraversalsListContents(l);
      TraversalsListContents(r);
      TraversalsOfNode(l, d, r);
  }

  /** The three traversals are permutations of one another. */
  lemma {:induction false} TraversalsArePermutations(t: Tree)
    ensures multiset(PreOrder(t, [])) == multiset(InOrder(t, []))
    ensures multiset(PostOrder(t, [])) == multiset(InOrder(t, []))
  {
    match t
    case Nil =>
    case Node(l, d, r) =>
      TraversalsArePermutations(l);
      TraversalsArePermutations(r);
      TraversalsOfNode(l, d, r);
  }

  lemma ConcatIncreasing(a: seq<int>, d: int, b: seq<int>)
    requires StrictlyIncreasing(a) && StrictlyIncreasing(b)
    requires forall x :: x in a ==> x < d
    requires forall x :: x in b ==> d < x
    ensures StrictlyIncreasing(a + [d] + b)
  {
    var s := a + [d] + b;
    forall i, j | 0 <= i < j < |s| ensures s[i] < s[j] {
      if j < |a| {
      } else if i < |a| {
        assert s[i] in a;
        if j > |a| { assert s[j] == b[j - |a| - 1]; assert s[j] in b; }
      } else if i == |a| {
        assert s[j] == b[j - |a| - 1]; assert s[j] in b;
      } else {
        assert s[i] == b[i - |a| - 1] && s[j] == b[j - |a| - 1];
      }
    }
  }

  /** The in-order traversal of an ordered tree lists its values in strictly increasing
      order. */
  lemma {:induction false} InOrderIsStrictlyIncreasing(t: Tree)
    requires Ordered(t)
    ensures StrictlyIncreasing(InOrder(t, []))
  {
    match t
    case Nil =>
    case Node(l, d, r) =>
      InOrderIsStrictlyIncreasing(l);
      InOrderIsStrictlyIncreasing(r);
      TraversalsListContents(l);
      TraversalsListContents(r);
      TraversalsOfNode(l, d, r);
      ConcatIncreasing(InOrder(l, []), d, InOrder(r, []));
  }

  lemma HeadIsMember(u: seq<int>)
    ensures u != [] ==> u[0] in u
  {
  }

  /** Two strictly increasing sequences with the same members are equal. */
  lemma {:induction false} IncreasingWithSameMembersAreEqual(s: seq<int>, u: seq<int>)
    requires StrictlyIncreasing(s) && StrictlyIncreasing(u)
    requires forall x :: x in s <==> x in u
    ensures s == u
    decreases |s|
  {
    if s == [] {
      HeadIsMember(u);
    } else {
      assert s[0] in s;
      assert u != [];
      assert u[0] in u;
      assert s[0] == u[0];
      forall x ensures x in s[1..] <==> x in u[1..] {
        if x in s[1..] {
          var k :| 1 <= k < |s| && s[k] == x;
          assert x in u;
          var m :| 0 <= m < |u| && u[m] == x;
          assert m != 0;
        }
        if x in u[1..] {
          var k :| 1 <= k < |u| && u[k] == x;
          assert x in s;
          var m :| 0 <= m < |s| && s[m] == x;
          assert m != 0;
        }
      }
      IncreasingWithSameMembersAreEqual(s[1..], u[1..]);
      assert s == [s[0]] + s[1..];
      assert u == [u[0]] + u[1..];
    }
  }

  /** Ordered trees holding the same values have the same in-order traversal. */
  lemma InOrderDeterminedByContents(a: Tree, b: Tree)
    requires Ordered(a) && Ordered(b) && Contents(a) == Contents(b)
    ensures InOrder(a, []) == InOrder(b, [])
  {
    InOrderIsStrictlyIncreasing(a);
    InOrderIsStrictlyIncreasing(b);
    TraversalsListContents(a);
    TraversalsListContents(b);
    IncreasingWithSameMembersAreEqual(InOrder(a, []), InOrder(b, []));
  }

  /** Inserting a new value and then deleting it gives back the tree it started from: the new
      value hangs on a leaf, and deleting a leaf gives back the null link. */
  lemma {:induction false} InsertThenDeleteRestores(t: Tree, x: int)
    requires Ordered(t) && x !in Contents(t)
    ensures Insert(t, x).Ok?
    ensures Delete(Insert(t, x).value, x) == Ok(t)
  {
    match t
    case Nil =>
    case Node(l, d, r) =>
      if x < d {
        InsertThenDeleteRestores(l, x);
      } else {
        InsertThenDeleteRestores(r, x);
      }
  }

  /** A node with two children is replaced by its in-order predecessor: the node keeps its
      right subtree and takes the largest value of its left subtree, whose node is deleted. */
  lemma TwoChildDeletionTakesPredecessor(t: Tree)
    requires Ordered(t) && t.Node? && t.left.Node? && t.right.Node?
    ensures DeleteNode(t).Node?
    ensures DeleteNode(t).data == Rightmost(t.left)
    ensures forall x :: x in Contents(t.left) ==> x <= DeleteNode(t).data
    ensures DeleteNode(t).left == Delete(t.left, Rightmost(t.left)).value
    ensures DeleteNode(t).right == t.right
  {
  }

  /** A value found at some depth is stored in the tree, above its last level. */
  lemma {:induction false} AtDepthIsStored(t: Tree, x: int, d: nat)
    requires AtDepth(t, x, d)
    ensures x in Contents(t) && d < Height(t)
  {
    var Node(l, v, r) := t;
    if d > 0 {
      if AtDepth(l, x, d - 1) {
        AtDepthIsStored(l, x, d - 1);
      } else {
        AtDepthIsStored(r, x, d - 1);
      }
    }
  }

  /** In an ordered tree a value is stored at one depth only, so Level is well defined. */
  lemma {:induction false} DepthIsUnique(t: Tree, x: int, d1: nat, d2: nat)
    requires Ordered(t) && AtDepth(t, x, d1) && AtDepth(t, x, d2)
    ensures d1 == d2
  {
    var Node(l, v, r) := t;
    if d1 == 0 && d2 != 0 {
      if AtDepth(l, x, d2 - 1) { AtDepthIsStored(l, x, d2 - 1); } else { AtDepthIsStored(r, x, d2 - 1); }
    } else if d1 != 0 && d2 == 0 {
      if AtDepth(l, x, d1 - 1) { AtDepthIsStored(l, x, d1 - 1); } else { AtDepthIsStored(r, x, d1 - 1); }
    } else if d1 != 0 && d2 != 0 {
      if AtDepth(l, x, d1 - 1) {
        AtDepthIsStored(l, x, d1 - 1);
        if AtDepth(l, x, d2 - 1) {
          DepthIsUnique(l, x, d1 - 1, d2 - 1);
        } else {
          AtDepthIsStored(r, x, d2 - 1);
        }
      } else {
        AtDepthIsStored(r, x, d1 - 1);
        if AtDepth(r, x, d2 - 1) {
          DepthIsUnique(r, x, d1 - 1, d2 - 1);
        } else {
          AtDepthIsStored(l, x, d2 - 1);
        }
      }
    }
  }

  /** A value that has a parent is stored below the root, and so is its parent. */
  lemma {:induction false} ChildIsBelowRoot(t: Tree, p: int, x: int)
    requires IsParentIn(t, p, x)
    ensures t.Node? && p in Contents(t) && x in Contents(t.left) + Contents(t.right)
  {
    var Node(l, v, r) := t;
    if IsParentIn(l, p, x) {
      ChildIsBelowRoot(l, p, x);
    } else if IsParentIn(r, p, x) {
      ChildIsBelowRoot(r, p, x);
    }
  }

  /** In an ordered tree the root and the absent values have no parent. */
  lemma RootAndAbsentValuesHaveNoParent(t: Tree, x: int)
    requires Ordered(t) && t.Node? && (x == t.data || x !in Contents(t))
    ensures forall p :: !IsParentIn(t, p, x)
  {
    forall p | IsParentIn(t, p, x) ensures false {
      ChildIsBelowRoot(t, p, x);
    }
  }

  /** In an ordered tree a child of the root has no parent further down. */
  lemma DirectChildHasNoDeeperParent(t: Tree, x: int)
    requires Ordered(t) && t.Node? && (Holds(t.left, x) || Holds(t.right, x))
    ensures forall p :: !IsParentIn(t.left, p, x) && !IsParentIn(t.right, p, x)
  {
    var Node(l, v, r) := t;
    var child := if Holds(l, x) then l else r;
    assert x == child.data && x in Contents(child);
    forall p | IsParentIn(l, p, x) ensures false {
      ChildIsBelowRoot(l, p, x);
      BelowRootDiffers(l, x);
    }
    forall p | IsParentIn(r, p, x) ensures false {
      ChildIsBelowRoot(r, p, x);
      BelowRootDiffers(r, x);
    }
  }

  /** In an ordered tree the values of the subtrees differ from the root value. */
  lemma BelowRootDiffers(t: Tree, x: int)
    requires Ordered(t) && t.Node? && x in Contents(t.left) + Contents(t.right)
    ensures x in Contents(t) && x != t.data
  {
  }

  /** In an ordered tree every value has at most one parent, so Parent is well defined. */
  lemma {:induction false} ParentIsUnique(t: Tree, p1: int, p2: int, x: int)
    requires Ordered(t) && IsParentIn(t, p1, x) && IsParentIn(t, p2, x)
    ensures p1 == p2
  {
    var Node(l, v, r) := t;
    var direct1 := v == p1 && (Holds(l, x) || Holds(r, x));
    var direct2 := v == p2 && (Holds(l, x) || Holds(r, x));
    if direct1 && direct2 {
    } else if direct1 || direct2 {
      DirectChildHasNoDeeperParent(t, x);
    } else if IsParentIn(l, p1, x) && IsParentIn(l, p2, x) {
      ParentIsUnique(l, p1, p2, x);
    } else if IsParentIn(r, p1, x) && IsParentIn(r, p2, x) {
      ParentIsUnique(r, p1, p2, x);
    } else {
      ChildIsBelowRoot(l, if IsParentIn(l, p1, x) then p1 else p2, x);
      ChildIsBelowRoot(r, if IsParentIn(r, p1, x) then p1 else p2, x);
    }
  }
  /** The tree that inserting 50, 30, 70, 20, 40, 60 and 80 into an empty tree builds. */
  function ScenarioTree(): Tree
  {
    Node(Node(Node(Nil, 20, Nil), 30, Node(Nil, 40, Nil)), 50,
         Node(Node(Nil, 60, Nil), 70, Node(Nil, 80, Nil)))
  }

  /** The insertions, one at a time, build ScenarioTree. */
  lemma ScenarioInsertions()
    ensures Insert(Nil, 50) == Ok(Node(Nil, 50, Nil))
    ensures Insert(Node(Nil, 50, Nil), 30) == Ok(Node(Node(Nil, 30, Nil), 50, Nil))
    ensures Insert(Node(Node(Nil, 30, Nil), 50, Nil), 70)
              == Ok(Node(Node(Nil, 30, Nil), 50, Node(Nil, 70, Nil)))
    ensures Insert(Node(Node(Nil, 30, Nil), 50, Node(Nil, 70, Nil)), 20)
              == Ok(Node(Node(Node(Nil, 20, Nil), 30, Nil), 50, Node(Nil, 70, Nil)))
    ensures Insert(Node(Node(Node(Nil, 20, Nil), 30, Nil), 50, Node(Nil, 70, Nil)), 40)
              == Ok(Node(Node(Node(Nil, 20, Nil), 30, Node(Nil, 40, Nil)), 50, Node(Nil, 70, Nil)))
    ensures Insert(Node(Node(Node(Nil, 20, Nil), 30, Node(Nil, 40, Nil)), 50, Node(Nil, 70, Nil)), 60)
              == Ok(Node(Node(Node(Nil, 20, Nil), 30, Node(Nil, 40, Nil)), 50, Node(Node(Nil, 60, Nil), 70, Nil)))
    ensures Insert(Node(Node(Node(Nil, 20, Nil), 30, Node(Nil, 40, Nil)), 50, Node(Node(Nil, 60, Nil), 70, Nil)), 80)
              == Ok(ScenarioTree())
  {
  }

  /** The in-order traversal of ScenarioTree lists the seven values in increasing order. */
  lemma ScenarioInOrder()
    ensures InOrder(ScenarioTree(), []) == [20, 30, 40, 50, 60, 70, 80]
  {
    var a, b := Node(Node(Nil, 20, Nil), 30, Node(Nil, 40, Nil)), Node(Node(Nil, 60, Nil), 70, Node(Nil, 80, Nil));
    TraversalsOfNode(Nil, 20, Nil);
    TraversalsOfNode(Nil, 40, Nil);
    TraversalsOfNode(Nil, 60, Nil);
    TraversalsOfNode(Nil, 80, Nil);
    TraversalsOfNode(Node(Nil, 20, Nil), 30, Node(Nil, 40, Nil));
    TraversalsOfNode(Node(Nil, 60, Nil), 70, Node(Nil, 80, Nil));
    TraversalsOfNode(a, 50, b);
    assert InOrder(a, []) == [20, 30, 40];
    assert InOrder(b, []) == [60, 70, 80];
  }

  /** On ScenarioTree the minimum is 20 and the maximum 80, there are 3 levels, 40 is at
      level 2 under 30, and 99 has neither a level nor a parent. */
  lemma ScenarioQueries()
    ensures Leftmost(ScenarioTree()) == 20 && Rightmost(ScenarioTree()) == 80
    ensures LevelCount(ScenarioTree()) == 3
    ensures FindLevel(ScenarioTree(), 40) == Ok(2) && SearchForParent(ScenarioTree(), 40) == Some(30)
    ensures FindLevel(ScenarioTree(), 99) == Err(NotFoundBSTree)
    ensures SearchForParent(ScenarioTree(), 99) == None
  {
  }

  /** Deleting 30, which has two children, puts its predecessor 20 in its place. */
  lemma ScenarioTwoChildDeletion()
    ensures Ordered(ScenarioTree())
    ensures Delete(ScenarioTree(), 30) == Ok(Node(Node(Nil, 20, Node(Nil, 40, Nil)), 50,
                                                   Node(Node(Nil, 60, Nil), 70, Node(Nil, 80, Nil))))
  {
  }
}
