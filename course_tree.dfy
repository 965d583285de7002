/** The course index as a value: the binary search tree of CourseBST, keyed by
    course number, with "less goes left, everything else goes right". The
    heap-allocated tree in CourseIndex is proved to follow these definitions. */
module CourseTree {
  import opened Text
  import opened Courses
  import opened Sequences

  datatype Tree = Leaf | Node(course: Course, left: Tree, right: Tree)

  /** The courses stored in a tree, with their multiplicities. */
  function Elems(t: Tree): multiset<Course>
  {
    match t
    case Leaf => multiset{}
    case Node(c, l, r) => Elems(l) + multiset{c} + Elems(r)
  }

  /** Every number stored in t is strictly less than k. */
  ghost predicate Below(t: Tree, k: string)
  {
    t.Node? ==> Less(t.course.number, k) && Below(t.left, k) && Below(t.right, k)
  }

  /** No number stored in t is less than k. */
  ghost predicate NotBelow(t: Tree, k: string)
  {
    t.Node? ==> !Less(t.course.number, k) && NotBelow(t.left, k) && NotBelow(t.right, k)
  }

  /** The ordering invariant: every number in a left subtree is strictly less
      than the node's number, every number in a right subtree is not. */
  ghost predicate IsBST(t: Tree)
  {
    t.Node? ==>
      && Below(t.left, t.course.number)
      && NotBelow(t.right, t.course.number)
      && IsBST(t.left)
      && IsBST(t.right)
  }

  /** insertNode: descend left on a strictly smaller number, right otherwise,
      and hang a new node on the empty subtree reached. */
  function Insert(t: Tree, c: Course): (r: Tree)
    ensures r.Node?
  {
    match t
    case Leaf => Node(c, Leaf, Leaf)
    case Node(d, l, rt) =>
      if Less(c.number, d.number) then Node(d, Insert(l, c), rt)
      else Node(d, l, Insert(rt, c))
  }

  /** inOrder: left subtree, the node, right subtree. Every stored course
      appears exactly as often as it is stored. */
  function InOrder(t: Tree): seq<Course>
  {
    match t
    case Leaf => []
    case Node(c, l, r) => InOrder(l) + [c] + InOrder(r)
  }

  /** The listing holds every stored course exactly as often as it is stored. */
  lemma {:induction false} InOrderElems(t: Tree)
    ensures multiset(InOrder(t)) == Elems(t)
    ensures |InOrder(t)| == |Elems(t)|
  {
    match t
    case Leaf =>
    case Node(c, l, r) =>
      InOrderElems(l);
      InOrderElems(r);
  }

  /** searchNode: stop at the first node on the descent whose number equals
      the key; go left on a smaller key, right on a larger one. */
  function Search(t: Tree, key: string): (r: Option<Course>)
    ensures r.Some? ==> r.value.number == key
  {
    match t
    case Leaf => None
    case Node(c, l, rt) =>
      if key == c.number then Some(c)
      else if Less(key, c.number) then Search(l, key)
      else Search(rt, key)
  }

  /** Course numbers never decrease along the sequence. */
  ghost predicate Sorted(s: seq<Course>)
  {
    forall i, j :: 0 <= i < j < |s| ==> !Less(s[j].number, s[i].number)
  }

  /** The courses of s whose number is key, in the order of s. */
  function WithNumber(s: seq<Course>, key: string): seq<Course>
  {
    if s == [] then []
    else (if s[0].number == key then [s[0]] else []) + WithNumber(s[1..], key)
  }

  function First(s: seq<Course>): Option<Course>
  {
    if s == [] then None else Some(s[0])
  }

  /** The tree that loading the courses cs, one after the other and in file
      order, into the index t produces (a second load adds to the same tree). */
  function Load(t: Tree, cs: seq<Course>): Tree
    decreases cs
  {
    if cs == [] then t else Load(Insert(t, cs[0]), cs[1..])
  }

  /** Nothing is rejected or merged: the tree holds exactly one more course. */
  lemma {:induction false} InsertElems(t: Tree, c: Course)
    ensures Elems(Insert(t, c)) == Elems(t) + multiset{c}
  {
    if t.Node? {
      var d, l, r := t.course, t.left, t.right;
      if Less(c.number, d.number) {
        InsertElems(l, c);
        calc {
          Elems(Insert(t, c));
          Elems(Insert(l, c)) + multiset{d} + Elems(r);
          Elems(l) + multiset{c} + multiset{d} + Elems(r);
          Elems(t) + multiset{c};
        }
      } else {
        InsertElems(r, c);
      }
    }
  }

  /** A course is stored in a non-empty tree when it is at the root or
      stored in one of the subtrees. */
  lemma ElemsNode(t: Tree, x: Course)
    requires t.Node?
    ensures x in Elems(t) <==> x == t.course || x in Elems(t.left) || x in Elems(t.right)
  {
  }

  /** Below says what it promises about the stored courses. */
  lemma {:induction false} BelowElems(t: Tree, k: string)
    ensures Below(t, k) <==> forall x | x in Elems(t) :: Less(x.number, k)
  {
    if t.Node? {
      BelowElems(t.left, k);
      BelowElems(t.right, k);
      forall x
        ensures x in Elems(t) <==> x == t.course || x in Elems(t.left) || x in Elems(t.right)
      {
        ElemsNode(t, x);
      }
    }
  }

  /** NotBelow says what it promises about the stored courses. */
  lemma {:induction false} NotBelowElems(t: Tree, k: string)
    ensures NotBelow(t, k) <==> forall x | x in Elems(t) :: !Less(x.number, k)
  {
    if t.Node? {
      NotBelowElems(t.left, k);
      NotBelowElems(t.right, k);
      forall x
        ensures x in Elems(t) <==> x == t.course || x in Elems(t.left) || x in Elems(t.right)
      {
        ElemsNode(t, x);
      }
    }
  }

  lemma {:induction false} InsertBelow(t: Tree, c: Course, k: string)
    requires Below(t, k) && Less(c.number, k)
    ensures Below(Insert(t, c), k)
  {
    if t.Node? {
      if Less(c.number, t.course.number) {
        InsertBelow(t.left, c, k);
      } else {
        InsertBelow(t.right, c, k);
      }
    }
  }

  lemma {:induction false} InsertNotBelow(t: Tree, c: Course, k: string)
    requires NotBelow(t, k) && !Less(c.number, k)
    ensures NotBelow(Insert(t, c), k)
  {
    if t.Node? {
      if Less(c.number, t.course.number) {
        InsertNotBelow(t.left, c, k);
      } else {
        InsertNotBelow(t.right, c, k);
      }
    }
  }

  lemma {:induction false} InsertPreservesBST(t: Tree, c: Course)
    requires IsBST(t)
    ensures IsBST(Insert(t, c))
  {
    if t.Node? {
      var d := t.course;
      if Less(c.number, d.number) {
        InsertPreservesBST(t.left, c);
        InsertBelow(t.left, c, d.number);
      } else {
        InsertPreservesBST(t.right, c);
        InsertNotBelow(t.right, c, d.number);
      }
    }
  }

  lemma {:induction false} ListedBelow(t: Tree, k: string)
    requires Below(t, k)
    ensures forall i :: 0 <= i < |InOrder(t)| ==> Less(InOrder(t)[i].number, k)
  {
    if t.Node? {
      var L, R := InOrder(t.left), InOrder(t.right);
      ListedBelow(t.left, k);
      ListedBelow(t.right, k);
      var s := L + [t.course] + R;
      assert InOrder(t) == s;
      forall i | 0 <= i < |s|
        ensures Less(s[i].number, k)
      {
        if i < |L| {
          assert s[i] == L[i];
        } else if i > |L| {
          assert s[i] == R[i - |L| - 1];
        }
      }
    }
  }

  lemma {:induction false} ListedNotBelow(t: Tree, k: string)
    requires NotBelow(t, k)
    ensures forall i :: 0 <= i < |InOrder(t)| ==> !Less(InOrder(t)[i].number, k)
  {
    if t.Node? {
      var L, R := InOrder(t.left), InOrder(t.right);
      ListedNotBelow(t.left, k);
      ListedNotBelow(t.right, k);
      var s := L + [t.course] + R;
      assert InOrder(t) == s;
      forall i | 0 <= i < |s|
        ensures !Less(s[i].number, k)
      {
        if i < |L| {
          assert s[i] == L[i];
        } else if i > |L| {
          assert s[i] == R[i - |L| - 1];
        }
      }
    }
  }

  /** The listing of a search tree's left subtree lies strictly below the
      root's number, that of its right subtree at or above it. */
  lemma ListedBounds(t: Tree)
    requires IsBST(t) && t.Node?
    ensures forall i :: 0 <= i < |InOrder(t.left)| ==> Less(InOrder(t.left)[i].number, t.course.number)
    ensures forall i :: 0 <= i < |InOrder(t.right)| ==> !Less(InOrder(t.right)[i].number, t.course.number)
  {
    ListedBelow(t.left, t.course.number);
    ListedNotBelow(t.right, t.course.number);
  }

  /** Two sorted runs around a pivot, the first strictly below it and the
      second not, make one sorted run. */
  lemma SortedAround(L: seq<Course>, d: Course, R: seq<Course>)
    requires Sorted(L) && Sorted(R)
    requires forall i :: 0 <= i < |L| ==> Less(L[i].number, d.number)
    requires forall i :: 0 <= i < |R| ==> !Less(R[i].number, d.number)
    ensures Sorted(L + [d] + R)
  {
    var s := L + [d] + R;
    forall i, j | 0 <= i < j < |s|
      ensures !Less(s[j].number, s[i].number)
    {
      if j < |L| {
        assert s[i] == L[i] && s[j] == L[j];
      } else if i < |L| {
        assert s[i] == L[i];
        if j == |L| {
          LessAsymmetric(s[i].number, d.number);
        } else {
          assert s[j] == R[j - |L| - 1];
          LessThenNotGreater(s[i].number, d.number, s[j].number);
          LessAsymmetric(s[i].number, s[j].number);
        }
      } else if i == |L| {
        assert s[j] == R[j - |L| - 1];
      } else {
        assert s[i] == R[i - |L| - 1] && s[j] == R[j - |L| - 1];
      }
    }
  }

  lemma {:induction false} InOrderSorted(t: Tree)
    requires IsBST(t)
    ensures Sorted(InOrder(t))
  {
    if t.Node? {
      InOrderSorted(t.left);
      InOrderSorted(t.right);
      ListedBounds(t);
      SortedAround(InOrder(t.left), t.course, InOrder(t.right));
    }
  }

  lemma {:induction false} WithNumberAppend(a: seq<Course>, b: seq<Course>, key: string)
    ensures WithNumber(a + b, key) == WithNumber(a, key) + WithNumber(b, key)
  {
    if a != [] {
      assert (a + b)[1..] == a[1..] + b;
      WithNumberAppend(a[1..], b, key);
    } else {
      assert a + b == b;
    }
  }

  /** WithNumber keeps exactly the courses of s that have the number key. */
  lemma {:induction false} WithNumberMembers(s: seq<Course>, key: string)
    ensures forall x :: x in WithNumber(s, key) <==> x in s && x.number == key
  {
    if s != [] {
      WithNumberMembers(s[1..], key);
      assert s == [s[0]] + s[1..];
    }
  }

  lemma WithNumberEmpty(s: seq<Course>, key: string)
    requires forall i :: 0 <= i < |s| ==> s[i].number != key
    ensures WithNumber(s, key) == []
  {
    if WithNumber(s, key) != [] {
      WithNumberMembers(s, key);
      assert WithNumber(s, key)[0] in WithNumber(s, key);
    }
  }

  lemma {:induction false} LoadIsBST(t: Tree, cs: seq<Course>)
    requires IsBST(t)
    ensures IsBST(Load(t, cs))
    decreases cs
  {
    if cs != [] {
      InsertPreservesBST(t, cs[0]);
      LoadIsBST(Insert(t, cs[0]), cs[1..]);
    }
  }

  /** Loading stores every course exactly once: the index gains the multiset
      of the loaded courses, and the listing one entry per insert. */
  lemma {:induction false} LoadElems(t: Tree, cs: seq<Course>)
    ensures Elems(Load(t, cs)) == Elems(t) + multiset(cs)
    decreases cs
  {
    if cs != [] {
      var c, rest := cs[0], cs[1..];
      var t' := Insert(t, c);
      var before, added, later := Elems(t), multiset{c}, multiset(rest);
      assert Elems(Load(t, cs)) == Elems(t') + later by {
        LoadElems(t', rest);
        assert Load(t, cs) == Load(t', rest);
      }
      assert Elems(t') == before + added by {
        InsertElems(t, c);
      }
      assert multiset(cs) == added + later by {
        assert cs == [c] + rest;
      }
      MultisetAssoc(before, added, later);
    }
  }

  /** The listing gains one entry per loaded course. */
  lemma LoadLength(t: Tree, cs: seq<Course>)
    ensures |InOrder(Load(t, cs))| == |InOrder(t)| + |cs|
  {
    LoadElems(t, cs);
    InOrderElems(t);
    InOrderElems(Load(t, cs));
  }

  /** The listing is in number order whatever order the courses were loaded in. */
  lemma LoadSorted(cs: seq<Course>)
    ensures Sorted(InOrder(Load(Leaf, cs)))
  {
    LoadIsBST(Leaf, cs);
    InOrderSorted(Load(Leaf, cs));
  }

  /** Among courses with the same number, one insert lists the new course
      after the ones already listed. */
  lemma {:induction false} InsertKeepsOrder(t: Tree, c: Course, key: string)
    requires IsBST(t)
    ensures WithNumber(InOrder(Insert(t, c)), key)
         == WithNumber(InOrder(t), key) + (if c.number == key then [c] else [])
  {
    var here := if c.number == key then [c] else [];
    if t.Node? {
      var d, l, r := t.course, t.left, t.right;
      var L, R := InOrder(l), InOrder(r);
      assert InOrder(t) == L + ([d] + R) == (L + [d]) + R;
      if Less(c.number, d.number) {
        var L' := InOrder(Insert(l, c));
        var wl, wr := WithNumber(L, key), WithNumber([d] + R, key);
        assert WithNumber(L', key) == wl + here by {
          assert IsBST(l);
          InsertKeepsOrder(l, c, key);
        }
        assert c.number == key ==> wr == [] by {
          if c.number == key {
            forall i | 0 <= i < |[d] + R|
              ensures ([d] + R)[i].number != key
            {
              LessIrreflexive(key);
              if i > 0 {
                ListedBounds(t);
                assert ([d] + R)[i] == R[i - 1];
                LessThenNotGreater(key, d.number, R[i - 1].number);
              }
            }
            WithNumberEmpty([d] + R, key);
          }
        }
        assert InOrder(Insert(t, c)) == L' + ([d] + R);
        WithNumberAppend(L', [d] + R, key);
        WithNumberAppend(L, [d] + R, key);
        if c.number == key {
          ConcatEmpty(wl + here);
          ConcatEmpty(wl);
        } else {
          ConcatEmpty(wl + wr);
          ConcatEmpty(wl);
        }
      } else {
        var R' := InOrder(Insert(r, c));
        assert WithNumber(R', key) == WithNumber(R, key) + here by {
          assert IsBST(r);
          InsertKeepsOrder(r, c, key);
        }
        assert InOrder(Insert(t, c)) == (L + [d]) + R';
        WithNumberAppend(L + [d], R', key);
        WithNumberAppend(L + [d], R, key);
        ConcatAssoc(WithNumber(L + [d], key), WithNumber(R, key), here);
      }
    } else {
      assert InOrder(Insert(t, c)) == [c];
      assert [c][1..] == [];
    }
  }

  /** Among courses with the same number, the listing keeps the order in which
      they were loaded: duplicates are neither dropped nor reordered. */
  lemma {:induction false} LoadKeepsOrder(t: Tree, cs: seq<Course>, key: string)
    requires IsBST(t)
    ensures WithNumber(InOrder(Load(t, cs)), key) == WithNumber(InOrder(t), key) + WithNumber(cs, key)
    decreases cs
  {
    if cs == [] {
      assert WithNumber(cs, key) == [];
    } else {
      var c, rest := cs[0], cs[1..];
      var t' := Insert(t, c);
      var here := if c.number == key then [c] else [];
      InsertKeepsOrder(t, c, key);
      InsertPreservesBST(t, c);
      LoadKeepsOrder(t', rest, key);
      assert Load(t, cs) == Load(t', rest);
      assert WithNumber(cs, key) == here + WithNumber(rest, key);
      assert WithNumber(InOrder(t'), key) == WithNumber(InOrder(t), key) + here;
      ConcatAssoc(WithNumber(InOrder(t), key), here, WithNumber(rest, key));
    }
  }

  /** In a search tree, search returns the first course in the listing whose
      number is the key, and nothing when there is none. */
  lemma {:induction false} SearchFirstListed(t: Tree, key: string)
    requires IsBST(t)
    ensures Search(t, key) == First(WithNumber(InOrder(t), key))
  {
    match t
    case Leaf =>
    case Node(d, l, r) =>
      var L, R := InOrder(l), InOrder(r);
      ListedBounds(t);
      WithNumberAppend(L + [d], R, key);
      WithNumberAppend(L, [d], key);
      LessIrreflexive(key);
      if !Less(key, d.number) {
        forall i | 0 <= i < |L|
          ensures L[i].number != key
        {
          if key != d.number {
            LessThenNotGreater(L[i].number, d.number, key);
          }
        }
        WithNumberEmpty(L, key);
        if key != d.number {
          SearchFirstListed(r, key);
        }
      } else {
        forall i | 0 <= i < |R|
          ensures R[i].number != key
        {
          LessThenNotGreater(key, d.number, R[i].number);
        }
        WithNumberEmpty(R, key);
        SearchFirstListed(l, key);
      }
  }

  /** Search finds something exactly when some stored course has that number. */
  lemma SearchFindsStored(t: Tree, key: string)
    requires IsBST(t)
    ensures Search(t, key).Some? <==> exists x :: x in Elems(t) && x.number == key
  {
    SearchFirstListed(t, key);
    InOrderElems(t);
    WithNumberMembers(InOrder(t), key);
    var w := WithNumber(InOrder(t), key);
    if x :| x in Elems(t) && x.number == key {
      assert x in multiset(InOrder(t));
      assert x in w;
    }
  }

  /** With duplicate numbers, search returns the earliest-loaded course with
      that number (the later ones sit below it, in its right subtree). */
  lemma SearchFirstLoaded(cs: seq<Course>, key: string)
    ensures Search(Load(Leaf, cs), key) == First(WithNumber(cs, key))
  {
    LoadIsBST(Leaf, cs);
    SearchFirstListed(Load(Leaf, cs), key);
    LoadKeepsOrder(Leaf, cs, key);
  }

  /** Loading one more course is one more insert into the tree loaded so far. */
  lemma {:induction false} LoadAppend(t: Tree, cs: seq<Course>, c: Course)
    ensures Load(t, cs + [c]) == Insert(Load(t, cs), c)
    decreases cs
  {
    if cs == [] {
      assert cs + [c] == [c];
    } else {
      assert (cs + [c])[1..] == cs[1..] + [c];
      LoadAppend(Insert(t, cs[0]), cs[1..], c);
    }
  }

  /** Nothing is first among the courses with a number exactly when no
      course has that number. */
  lemma FirstAbsent(s: seq<Course>, key: string)
    ensures First(WithNumber(s, key)).None? <==> forall i :: 0 <= i < |s| ==> s[i].number != key
  {
    WithNumberMembers(s, key);
    if forall i :: 0 <= i < |s| ==> s[i].number != key {
      WithNumberEmpty(s, key);
    } else {
      var i :| 0 <= i < |s| && s[i].number == key;
      assert s[i] in WithNumber(s, key);
    }
  }
}
