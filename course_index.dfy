/** CourseBST as the program keeps it: nodes allocated on the heap, linked by
    left and right links, and updated in place by insert. Every node
    carries, as ghost state, the set of objects its subtree is made of and
    the CourseTree value it stands for; every operation is proved to follow
    that value. */
module CourseIndex {
  import opened Text
  import opened Courses
  import T = CourseTree
  import Report

  /** struct Node: a course and the two subtrees below it. */
  class Node {
    var course: Course
    var left: Node?
    var right: Node?
    ghost var Repr: set<object>
    ghost var Value: T.Tree

    ghost predicate Valid()
      reads this, Repr
      decreases Repr
    {
      && this in Repr
      && (left != null ==>
            left in Repr && left.Repr <= Repr && this !in left.Repr && left.Valid())
      && (right != null ==>
            right in Repr && right.Repr <= Repr && this !in right.Repr && right.Valid())
      && (left != null && right != null ==> left.Repr !! right.Repr)
      && Value == T.Node(course, ValueOf(left), ValueOf(right))
    }

    /** Node(c): a leaf holding c. */
    constructor (c: Course)
      ensures Valid() && fresh(Repr)
      ensures Value == T.Insert(T.Leaf, c)
    {
      course := c;
      left := null;
      right := null;
      Repr := {this};
      Value := T.Node(c, T.Leaf, T.Leaf);
    }

    /** insertNode on a non-empty subtree: a strictly smaller number goes
        left, anything else right, and the empty child reached becomes a
        new node. */
    method Insert(c: Course)
      requires Valid()
      modifies Repr
      ensures Valid() && fresh(Repr - old(Repr))
      ensures Value == T.Insert(old(Value), c)
      decreases Repr
    {
      if Less(c.number, course.number) {
        if left == null {
          left := new Node(c);
        } else {
          left.Insert(c);
        }
        Repr := Repr + left.Repr;
      } else {
        if right == null {
          right := new Node(c);
        } else {
          right.Insert(c);
        }
        Repr := Repr + right.Repr;
      }
      Value := T.Node(course, ValueOf(left), ValueOf(right));
    }
  }

  /** The tree a possibly-null link stands for. */
  ghost function ValueOf(n: Node?): T.Tree
    reads n
  {
    if n == null then T.Leaf else n.Value
  }

  /** What a search result points at. */
  function Found(n: Node?): Option<Course>
    reads n
  {
    if n == null then None else Some(n.course)
  }

  /** searchNode: the node on the descent whose number equals the key, or
      null when the descent falls off the tree. */
  function SearchNode(node: Node?, key: string): (r: Node?)
    requires node != null ==> node.Valid()
    reads if node == null then {} else node.Repr
    ensures r != null ==> node != null && r in node.Repr && r.course.number == key
    ensures Found(r) == T.Search(ValueOf(node), key)
    decreases if node == null then {} else node.Repr
  {
    if node == null then null
    else if key == node.course.number then node
    else if Less(key, node.course.number) then SearchNode(node.left, key)
    else SearchNode(node.right, key)
  }

  /** inOrder: the lines printed for the subtree, left subtree first, then
      the node, then the right subtree. */
  function InOrder(node: Node?): (lines: seq<string>)
    requires node != null ==> node.Valid()
    reads if node == null then {} else node.Repr
    ensures lines == Report.Listing(T.InOrder(ValueOf(node)))
    decreases if node == null then {} else node.Repr
  {
    if node == null then []
    else
      Report.ListingAround(T.InOrder(ValueOf(node.left)), node.course, T.InOrder(ValueOf(node.right)));
      InOrder(node.left) + [Report.Heading(node.course)] + InOrder(node.right)
  }

  /** class CourseBST: the root link. Inserted records, as ghost state,
      every course inserted so far, in order. */
  class CourseBST {
    var root: Node?
    ghost var Repr: set<object>
    ghost var Value: T.Tree
    ghost var Inserted: seq<Course>

    ghost predicate Valid()
      reads this, Repr
    {
      && this in Repr
      && (root != null ==>
            root in Repr && root.Repr <= Repr && this !in root.Repr && root.Valid())
      && Value == ValueOf(root)
      && Value == T.Load(T.Leaf, Inserted)
      && T.IsBST(Value)
    }

    /** CourseBST(): the empty index. */
    constructor ()
      ensures Valid() && fresh(Repr)
      ensures Inserted == [] && Value == T.Leaf
    {
      root := null;
      Repr := {this};
      Value := T.Leaf;
      Inserted := [];
    }

    /** insert: insertNode from the root; an empty index gets a root node. */
    method Insert(c: Course)
      requires Valid()
      modifies Repr
      ensures Valid() && fresh(Repr - old(Repr))
      ensures Value == T.Insert(old(Value), c)
      ensures Inserted == old(Inserted) + [c]
    {
      if root == null {
        root := new Node(c);
      } else {
        root.Insert(c);
      }
      Repr := Repr + root.Repr;
      Value := root.Value;
      T.InsertPreservesBST(old(Value), c);
      T.LoadAppend(T.Leaf, Inserted, c);
      Inserted := Inserted + [c];
    }

    /** printInOrder: one "number, title" line per inserted course, sorted
        by number, courses with equal numbers in the order they were
        inserted. */
    method PrintInOrder() returns (lines: seq<string>)
      requires Valid()
      ensures lines == Report.Listing(T.InOrder(Value))
      ensures |lines| == |Inserted|
      ensures multiset(T.InOrder(Value)) == multiset(Inserted)
      ensures T.Sorted(T.InOrder(Value))
      ensures forall key :: T.WithNumber(T.InOrder(Value), key) == T.WithNumber(Inserted, key)
    {
      lines := InOrder(root);
      T.LoadElems(T.Leaf, Inserted);
      T.InOrderElems(Value);
      T.LoadSorted(Inserted);
      forall key
        ensures T.WithNumber(T.InOrder(Value), key) == T.WithNumber(Inserted, key)
      {
        T.LoadKeepsOrder(T.Leaf, Inserted, key);
      }
    }

    /** search: the course of the node searchNode finds, or nothing. With
        several courses of that number, it is the one inserted first. */
    function Search(key: string): (r: Option<Course>)
      requires Valid()
      reads Repr
      ensures r == T.Search(Value, key)
      ensures r == T.First(T.WithNumber(Inserted, key))
      ensures r.Some? ==> r.value.number == key
      ensures r.None? <==> forall i :: 0 <= i < |Inserted| ==> Inserted[i].number != key
    {
      T.SearchFirstLoaded(Inserted, key);
      T.FirstAbsent(Inserted, key);
      Found(SearchNode(root, key))
    }
  }
}
