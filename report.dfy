/** The text the catalog shows for its courses: the line the listing prints
    for every course, and the two lines printCourseInfo prints for one course.
    The lines are returned instead of written to standard output. */
module Report {
  import opened Text
  import opened Courses

  /** "number, title": one line of the listing, and the first line of a
      course's details. */
  function Heading(c: Course): string
  {
    c.number + ", " + c.title
  }

  /** What printInOrder prints for a listing: one heading per course, in order. */
  function Listing(cs: seq<Course>): (lines: seq<string>)
    ensures |lines| == |cs|
    ensures forall i :: 0 <= i < |cs| ==> lines[i] == Heading(cs[i])
  {
    if cs == [] then [] else [Heading(cs[0])] + Listing(cs[1..])
  }

  lemma ListingAround(a: seq<Course>, c: Course, b: seq<Course>)
    ensures Listing(a + [c] + b) == Listing(a) + [Heading(c)] + Listing(b)
  {
    var l, r := Listing(a + [c] + b), Listing(a) + [Heading(c)] + Listing(b);
    assert |l| == |r|;
    forall i | 0 <= i < |l|
      ensures l[i] == r[i]
    {
      if i < |a| {
      } else if i == |a| {
      } else {
        assert (a + [c] + b)[i] == b[i - |a| - 1];
      }
    }
  }

  /** The second line of a course's details. */
  function PrerequisitesLine(ps: seq<string>): string
  {
    if ps == [] then "Prerequisites: None" else "Prerequisites: " + Join(ps, ", ")
  }

  /** What printCourseInfo prints, line by line. */
  function CourseInfo(c: Course): seq<string>
  {
    [Heading(c), PrerequisitesLine(c.prerequisites)]
  }

  /** printCourseInfo, building the prerequisites line with its loop: each
      prerequisite, followed by ", " unless it is the last one. */
  method PrintCourseInfo(c: Course) returns (lines: seq<string>)
    ensures lines == CourseInfo(c)
  {
    var ps := c.prerequisites;
    var second: string;
    if |ps| == 0 {
      second := "Prerequisites: None";
    } else {
      second := "Prerequisites: ";
      var i := 0;
      while i < |ps|
        invariant 0 <= i <= |ps|
        invariant second == "Prerequisites: " + Join(ps[..i], ", ") + (if 0 < i < |ps| then ", " else "")
      {
        assert ps[..i + 1][..i] == ps[..i];
        second := second + ps[i];
        if i < |ps| - 1 {
          second := second + ", ";
        }
        i := i + 1;
      }
      assert ps[..i] == ps;
      assert second == "Prerequisites: " + Join(ps, ", ");
    }
    assert second == PrerequisitesLine(ps);
    lines := [c.number + ", " + c.title, second];
  }

  /** Courses as the loader produces them: the number has no comma, and every
      prerequisite is non-empty, has no comma and no lower-case letter. */
  ghost predicate Printable(c: Course)
  {
    && ',' !in c.number
    && forall k :: 0 <= k < |c.prerequisites| ==>
         c.prerequisites[k] != [] && ',' !in c.prerequisites[k] && NoLower(c.prerequisites[k])
  }

  /** A listing line names its course: for comma-free numbers, equal lines
      mean equal numbers and equal titles. */
  lemma HeadingInjective(a: Course, b: Course)
    requires ',' !in a.number && ',' !in b.number
    requires Heading(a) == Heading(b)
    ensures a.number == b.number && a.title == b.title
  {
    NextCommaAfter(a.number, ", " + a.title);
    NextCommaAfter(b.number, ", " + b.title);
    assert a.number + (", " + a.title) == Heading(a);
    assert b.number + (", " + b.title) == Heading(b);
    var h := Heading(a);
    assert a.number == h[..|a.number|];
    assert b.number == h[..|b.number|];
    assert a.title == h[|a.number| + 2..];
  }

  /** A joined string starts with its first part, up to the first comma,
      and the rest after the separator joins the remaining parts. */
  lemma JoinSplitHead(xs: seq<string>, sep: string)
    requires sep != [] && sep[0] == ','
    requires |xs| > 1 && ',' !in xs[0]
    ensures NextComma(Join(xs, sep), 0) == |xs[0]| < |xs[0]| + |sep| <= |Join(xs, sep)|
    ensures xs[0] == Join(xs, sep)[..|xs[0]|]
    ensures Join(xs[1..], sep) == Join(xs, sep)[|xs[0]| + |sep|..]
  {
    var x, rest := xs[0], Join(xs[1..], sep);
    var j := x + (sep + rest);
    assert Join(xs, sep) == j by {
      assert xs == [x] + xs[1..];
      JoinCons(x, xs[1..], sep);
    }
    NextCommaAfter(x, sep + rest);
    assert j[..|x|] == x;
    assert j[|x| + |sep|..] == rest;
  }

  /** Joining comma-free parts with a separator that starts with a comma can
      be undone: equal joins come from equal lists. */
  lemma {:induction false} JoinInjective(xs: seq<string>, ys: seq<string>, sep: string)
    requires sep != [] && sep[0] == ','
    requires xs != [] && ys != []
    requires forall k :: 0 <= k < |xs| ==> ',' !in xs[k]
    requires forall k :: 0 <= k < |ys| ==> ',' !in ys[k]
    requires Join(xs, sep) == Join(ys, sep)
    ensures xs == ys
    decreases |xs|
  {
    var j := Join(xs, sep);
    if |xs| == 1 && |ys| == 1 {
    } else if |xs| == 1 {
      JoinSplitHead(ys, sep);
      assert false;
    } else if |ys| == 1 {
      JoinSplitHead(xs, sep);
      assert false;
    } else {
      JoinSplitHead(xs, sep);
      JoinSplitHead(ys, sep);
      JoinInjective(xs[1..], ys[1..], sep);
      assert xs == [xs[0]] + xs[1..] && ys == [ys[0]] + ys[1..];
    }
  }

  /** The details say "Prerequisites: None" exactly when the course has no
      prerequisites, as long as no prerequisite contains a lower-case letter
      (the loader upper-cases them, so a prerequisite "None" cannot occur). */
  lemma NoneExactlyWhenEmpty(ps: seq<string>)
    requires forall k :: 0 <= k < |ps| ==> NoLower(ps[k])
    ensures PrerequisitesLine(ps) == "Prerequisites: None" <==> ps == []
  {
    if ps != [] && PrerequisitesLine(ps) == "Prerequisites: None" {
      var prefix := "Prerequisites: ";
      assert Join(ps, ", ") == (prefix + Join(ps, ", "))[|prefix|..];
      assert Join(ps, ", ") == "None";
      assert 'o' in Join(ps, ", ") by {
        assert Join(ps, ", ")[1] == 'o';
      }
      JoinChars(ps, ", ", 'o');
    }
  }

  /** The printed details determine the course: two courses the loader could
      have produced print the same two lines only if they are the same. */
  lemma CourseInfoInjective(a: Course, b: Course)
    requires Printable(a) && Printable(b)
    requires CourseInfo(a) == CourseInfo(b)
    ensures a == b
  {
    HeadingInjective(a, b);
    var pa, pb := a.prerequisites, b.prerequisites;
    NoneExactlyWhenEmpty(pa);
    NoneExactlyWhenEmpty(pb);
    if pa != [] && pb != [] {
      var prefix := "Prerequisites: ";
      assert prefix + Join(pa, ", ") == prefix + Join(pb, ", ");
      assert Join(pa, ", ") == (prefix + Join(pa, ", "))[|prefix|..];
      assert Join(pb, ", ") == (prefix + Join(pb, ", "))[|prefix|..];
      JoinInjective(pa, pb, ", ");
    }
  }
}
