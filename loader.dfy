/** Reading the course file: each line is split at commas the way
    std::getline(ss, token, ',') splits it, and the fields become a course.
    Opening the file and reading its lines are not part of this model; the
    lines arrive as a sequence. */
module Loader {
  import opened Text
  import opened Courses
  import opened Sequences
  import Report
  import CourseIndex

  /** What one call of std::getline(ss, token, ',') does when the stream
      stands at position pos of the line: it fails when nothing is left;
      otherwise it yields the text up to the next comma, or to the end, and
      moves past that comma. */
  datatype Extract = Fail | Token(token: string, next: nat)

  function GetToken(line: string, pos: nat): (r: Extract)
    requires pos <= |line|
    ensures r.Fail? <==> pos == |line|
    ensures r.Token? ==> pos < r.next <= |line|
  {
    if pos == |line| then Fail
    else
      var e := NextComma(line, pos);
      Token(line[pos..e], if e < |line| then e + 1 else |line|)
  }

  /** The tokens that repeated getline calls hand out from position pos on. */
  function FieldsFrom(line: string, pos: nat): seq<string>
    requires pos <= |line|
    decreases |line| - pos
  {
    match GetToken(line, pos)
    case Fail => []
    case Token(t, next) => [t] + FieldsFrom(line, next)
  }

  /** The fields of a line: the text before each comma, and the text after
      the last comma when there is any. A comma at the very end of the line
      opens no further field, and an empty line has no field at all. */
  function Fields(line: string): seq<string>
  {
    FieldsFrom(line, 0)
  }

  /** The prerequisites written in the fields after the title: empty fields
      are skipped, the others upper-cased, in the order they appear. */
  function Prerequisites(fs: seq<string>): seq<string>
  {
    if fs == [] then []
    else (if fs[0] == [] then [] else [Upper(fs[0])]) + Prerequisites(fs[1..])
  }

  /** The course a line describes: nothing when it has fewer than two fields,
      otherwise the upper-cased number, the title as written, and the
      prerequisites. */
  function ParseLine(line: string): Option<Course>
  {
    var fs := Fields(line);
    if |fs| < 2 then None
    else Some(Course(Upper(fs[0]), fs[1], Prerequisites(fs[2..])))
  }

  /** One getline call from position at moves the prerequisites of its
      token, if any, from what is left to read onto what has been collected. */
  lemma PrerequisitesStep(line: string, pos: nat, at: nat, collected: seq<string>)
    requires pos <= at < |line|
    requires Prerequisites(FieldsFrom(line, pos)) == collected + Prerequisites(FieldsFrom(line, at))
    ensures GetToken(line, at).Token?
    ensures var x := GetToken(line, at);
      Prerequisites(FieldsFrom(line, pos))
      == collected + (if x.token == [] then [] else [Upper(x.token)]) + Prerequisites(FieldsFrom(line, x.next))
  {
    var x := GetToken(line, at);
    var rest := FieldsFrom(line, x.next);
    assert FieldsFrom(line, at) == [x.token] + rest;
    assert ([x.token] + rest)[1..] == rest;
    ConcatAssoc(collected, if x.token == [] then [] else [Upper(x.token)], Prerequisites(rest));
  }

  /** The inner loop of loadCourses: every further token read from position
      pos on, skipped when empty, upper-cased otherwise. */
  method ReadPrerequisites(line: string, pos: nat) returns (prerequisites: seq<string>)
    requires pos <= |line|
    ensures prerequisites == Prerequisites(FieldsFrom(line, pos))
  {
    var at := pos;
    prerequisites := [];
    while true
      invariant pos <= at <= |line|
      invariant Prerequisites(FieldsFrom(line, pos)) == prerequisites + Prerequisites(FieldsFrom(line, at))
      decreases |line| - at
    {
      var x := GetToken(line, at);
      if x.Fail? {
        break;
      }
      PrerequisitesStep(line, pos, at, prerequisites);
      if x.token != [] {
        var u := ToUpperStr(x.token);
        prerequisites := prerequisites + [u];
      } else {
        ConcatEmpty(prerequisites);
      }
      at := x.next;
    }
    assert FieldsFrom(line, at) == [];
    ConcatEmpty(prerequisites);
  }

  /** The body of loadCourses's loop for one line: skip an empty line, read
      the number and the title (skipping the line when either read fails),
      then collect the remaining non-empty tokens. */
  method ParseCourseLine(line: string) returns (r: Option<Course>)
    ensures r == ParseLine(line)
  {
    if |line| == 0 {
      return None;
    }
    var x := GetToken(line, 0);
    if x.Fail? {
      return None;
    }
    ghost var first := x.token;
    var number := ToUpperStr(x.token);
    var pos := x.next;
    x := GetToken(line, pos);
    assert Fields(line) == [first] + FieldsFrom(line, pos);
    if x.Fail? {
      assert FieldsFrom(line, pos) == [];
      return None;
    }
    var title := x.token;
    ghost var fs := Fields(line);
    assert fs == [first] + ([title] + FieldsFrom(line, x.next));
    assert fs[2..] == FieldsFrom(line, x.next);
    var prerequisites := ReadPrerequisites(line, x.next);
    r := Some(Course(number, title, prerequisites));
  }

  /** Every field is free of commas. */
  lemma {:induction false} FieldsCommaFree(line: string, pos: nat)
    requires pos <= |line|
    ensures forall k :: 0 <= k < |FieldsFrom(line, pos)| ==> ',' !in FieldsFrom(line, pos)[k]
    decreases |line| - pos
  {
    var x := GetToken(line, pos);
    if x.Token? {
      NextCommaFirst(line, pos);
      assert ',' !in x.token;
      FieldsCommaFree(line, x.next);
      var fs, rest := FieldsFrom(line, pos), FieldsFrom(line, x.next);
      assert fs == [x.token] + rest;
      forall k | 0 <= k < |fs|
        ensures ',' !in fs[k]
      {
        if k > 0 {
          assert fs[k] == rest[k - 1];
        }
      }
    }
  }

  /** A line yields no course exactly when it has no comma before its last
      character: an empty line, a line without a comma, and a line whose only
      comma ends it are all skipped. */
  lemma ParseLineNone(line: string)
    ensures ParseLine(line).None? <==> forall i :: 0 <= i < |line| - 1 ==> line[i] != ','
  {
    if line != [] {
      var x := GetToken(line, 0);
      var e := NextComma(line, 0);
      NextCommaFirst(line, 0);
      assert Fields(line) == [x.token] + FieldsFrom(line, x.next);
      if x.next < |line| {
        assert FieldsFrom(line, x.next) == [GetToken(line, x.next).token] + FieldsFrom(line, GetToken(line, x.next).next);
        assert line[e] == ',' && e < |line| - 1;
      } else {
        assert FieldsFrom(line, x.next) == [];
        assert e >= |line| - 1;
      }
    }
  }

  /** One more getline call: its token, then the fields after it. */
  lemma FieldsStepTo(line: string, pos: nat, t: string, next: nat)
    requires pos < |line| && GetToken(line, pos) == Token(t, next)
    ensures FieldsFrom(line, pos) == [t] + FieldsFrom(line, next)
  {
  }

  /** A getline call inside the part b of a line that follows a prefix p
      reads what it reads in b. */
  lemma GetTokenShift(p: string, b: string, q: nat, t: string, next: nat)
    requires q < |b| && GetToken(b, q) == Token(t, next)
    ensures GetToken(p + b, |p| + q) == Token(t, |p| + next)
  {
    NextCommaShift(p, b, q);
    var e := NextComma(b, q);
    assert (p + b)[|p| + q..|p| + e] == b[q..e];
  }

  /** Reading on inside that part b reads the same fields as reading b
      alone. */
  lemma {:induction false} FieldsShift(p: string, b: string, q: nat)
    requires q <= |b|
    ensures FieldsFrom(p + b, |p| + q) == FieldsFrom(b, q)
    decreases |b| - q
  {
    if q < |b| {
      var x := GetToken(b, q);
      var t, next := x.token, x.next;
      GetTokenShift(p, b, q, t, next);
      FieldsStepTo(p + b, |p| + q, t, |p| + next);
      FieldsStepTo(b, q, t, next);
      FieldsShift(p, b, next);
    }
  }

  /** A comma-free, non-empty line is one field. */
  lemma FieldsSingle(x: string)
    requires x != [] && ',' !in x
    ensures Fields(x) == [x]
  {
    assert GetToken(x, 0) == Token(x, |x|) by {
      NextCommaFirst(x, 0);
      assert x[0..|x|] == x;
    }
    FieldsStepTo(x, 0, x, |x|);
  }

  /** A comma-free part followed by a comma is the first field, and the
      fields of the rest follow it. */
  lemma FieldsCons(x: string, j: string)
    requires ',' !in x
    ensures Fields(x + "," + j) == [x] + Fields(j)
  {
    var s := x + "," + j;
    assert GetToken(s, 0) == Token(x, |x| + 1) by {
      ConcatAssoc(x, ",", j);
      NextCommaAfter(x, "," + j);
      assert s[0..|x|] == x;
    }
    FieldsStepTo(s, 0, x, |x| + 1);
    FieldsShift(x + ",", j, 0);
  }

  /** Fields undoes joining with commas: comma-free parts, the last of them
      non-empty, come back as they were. */
  lemma {:induction false} FieldsJoin(xs: seq<string>)
    requires xs != [] && xs[|xs| - 1] != []
    requires forall k :: 0 <= k < |xs| ==> ',' !in xs[k]
    ensures Fields(Join(xs, ",")) == xs
    decreases |xs|
  {
    if |xs| == 1 {
      FieldsSingle(xs[0]);
    } else {
      var x, ys := xs[0], xs[1..];
      assert Join(xs, ",") == x + "," + Join(ys, ",") by {
        assert xs == [x] + ys;
        JoinCons(x, ys, ",");
      }
      FieldsCons(x, Join(ys, ","));
      FieldsJoin(ys);
      assert xs == [x] + ys;
    }
  }

  /** Prerequisites keeps the order of the fields: it works field by field. */
  lemma {:induction false} PrerequisitesAppend(a: seq<string>, b: seq<string>)
    ensures Prerequisites(a + b) == Prerequisites(a) + Prerequisites(b)
  {
    if a == [] {
      assert a + b == b;
    } else {
      assert (a + b)[1..] == a[1..] + b;
      PrerequisitesAppend(a[1..], b);
      ConcatAssoc(if a[0] == [] then [] else [Upper(a[0])], Prerequisites(a[1..]), Prerequisites(b));
    }
  }

  /** An empty field contributes nothing, any other field its upper-cased
      text. */
  lemma PrerequisitesOne(a: seq<string>, t: string, b: seq<string>)
    ensures t == [] ==> Prerequisites(a + [t] + b) == Prerequisites(a) + Prerequisites(b)
    ensures t != [] ==> Prerequisites(a + [t] + b) == Prerequisites(a) + [Upper(t)] + Prerequisites(b)
  {
    PrerequisitesAppend(a + [t], b);
    PrerequisitesAppend(a, [t]);
    assert [t][1..] == [];
    if t == [] {
      ConcatEmpty(Prerequisites(a));
    }
  }

  /** Every prerequisite is non-empty and has no lower-case letter, and it
      has no comma when the fields have none. */
  lemma {:induction false} PrerequisitesShape(fs: seq<string>)
    ensures forall k :: 0 <= k < |Prerequisites(fs)| ==>
      Prerequisites(fs)[k] != [] && NoLower(Prerequisites(fs)[k])
    ensures (forall k :: 0 <= k < |fs| ==> ',' !in fs[k]) ==>
      forall k :: 0 <= k < |Prerequisites(fs)| ==> ',' !in Prerequisites(fs)[k]
  {
    if fs != [] {
      PrerequisitesShape(fs[1..]);
      var head := if fs[0] == [] then [] else [Upper(fs[0])];
      var ps, rest := Prerequisites(fs), Prerequisites(fs[1..]);
      assert ps == head + rest;
      UpperAt(fs[0]);
      UpperNoLower(fs[0]);
      UpperKeepsComma(fs[0]);
      forall k | 0 <= k < |ps|
        ensures ps[k] != [] && NoLower(ps[k])
        ensures (forall k :: 0 <= k < |fs| ==> ',' !in fs[k]) ==> ',' !in ps[k]
      {
        if k >= |head| {
          assert ps[k] == rest[k - |head|];
        }
        if forall k :: 0 <= k < |fs| ==> ',' !in fs[k] {
          assert forall k :: 0 <= k < |fs[1..]| ==> ',' !in fs[1..][k] by {
            forall k | 0 <= k < |fs[1..]|
              ensures ',' !in fs[1..][k]
            {
              assert fs[1..][k] == fs[k + 1];
            }
          }
        }
      }
    }
  }

  /** Prerequisites that are already upper-case and non-empty come through
      unchanged. */
  lemma {:induction false} PrerequisitesKeep(ps: seq<string>)
    requires forall k :: 0 <= k < |ps| ==> ps[k] != [] && NoLower(ps[k])
    ensures Prerequisites(ps) == ps
  {
    if ps != [] {
      PrerequisitesKeep(ps[1..]);
      UpperNoLower(ps[0]);
      assert ps == [ps[0]] + ps[1..];
    }
  }

  /** Every course a line yields is one the catalog can print unambiguously:
      the number and the title have no comma, and every prerequisite is
      non-empty, comma-free and upper-case. */
  lemma ParsedPrintable(line: string)
    requires ParseLine(line).Some?
    ensures Report.Printable(ParseLine(line).value)
    ensures ',' !in ParseLine(line).value.title
    ensures NoLower(ParseLine(line).value.number)
  {
    var fs := Fields(line);
    FieldsCommaFree(line, 0);
    UpperKeepsComma(fs[0]);
    UpperNoLower(fs[0]);
    assert forall k :: 0 <= k < |fs[2..]| ==> ',' !in fs[2..][k] by {
      forall k | 0 <= k < |fs[2..]|
        ensures ',' !in fs[2..][k]
      {
        assert fs[2..][k] == fs[k + 2];
      }
    }
    PrerequisitesShape(fs[2..]);
  }

  /** A course written as a line of the course file: number, title and
      prerequisites separated by commas. */
  function FormatLine(c: Course): string
  {
    Join([c.number, c.title] + c.prerequisites, ",")
  }

  /** Reading a written course gives it back, for every course the loader
      can produce whose line does not end in the comma after the title. */
  lemma ParseFormat(c: Course)
    requires Report.Printable(c) && ',' !in c.title && NoLower(c.number)
    requires c.title != [] || c.prerequisites != []
    ensures ParseLine(FormatLine(c)) == Some(c)
  {
    var xs := [c.number, c.title] + c.prerequisites;
    forall k | 0 <= k < |xs|
      ensures ',' !in xs[k]
    {
      if k >= 2 {
        assert xs[k] == c.prerequisites[k - 2];
      }
    }
    FieldsJoin(xs);
    assert xs[2..] == c.prerequisites;
    PrerequisitesKeep(c.prerequisites);
    UpperNoLower(c.number);
  }

  /** The courses the lines yield, in file order; the lines without a course
      are skipped. */
  function Parsed(lines: seq<string>): seq<Course>
  {
    if lines == [] then []
    else
      Parsed(lines[..|lines| - 1])
      + (match ParseLine(lines[|lines| - 1]) case None => [] case Some(c) => [c])
  }

  /** At most one course per line, and only printable ones. */
  lemma {:induction false} ParsedShape(lines: seq<string>)
    ensures |Parsed(lines)| <= |lines|
    ensures forall k :: 0 <= k < |Parsed(lines)| ==> Report.Printable(Parsed(lines)[k])
  {
    if lines != [] {
      var init, last := lines[..|lines| - 1], lines[|lines| - 1];
      ParsedShape(init);
      if ParseLine(last).Some? {
        ParsedPrintable(last);
      }
    }
  }

  /** loadCourses on the lines of an opened file: every line that yields a
      course is inserted into the index, in file order, and no other change
      is made. */
  method LoadCourses(lines: seq<string>, bst: CourseIndex.CourseBST)
    requires bst.Valid()
    modifies bst.Repr
    ensures bst.Valid() && fresh(bst.Repr - old(bst.Repr))
    ensures bst.Inserted == old(bst.Inserted) + Parsed(lines)
  {
    var i := 0;
    while i < |lines|
      invariant 0 <= i <= |lines|
      invariant bst.Valid() && fresh(bst.Repr - old(bst.Repr))
      invariant bst.Inserted == old(bst.Inserted) + Parsed(lines[..i])
    {
      var r := ParseCourseLine(lines[i]);
      assert lines[..i + 1][..i] == lines[..i];
      ghost var before := bst.Inserted;
      if r.Some? {
        bst.Insert(r.value);
        ConcatAssoc(old(bst.Inserted), Parsed(lines[..i]), [r.value]);
      } else {
        ConcatEmpty(before);
      }
      i := i + 1;
    }
    assert lines[..i] == lines;
  }

  /** A line whose only comma ends it has no second field and is skipped. */
  lemma ExampleTrailingComma()
    ensures ParseLine("cs1,").None?
  {
    assert GetToken("cs1,", 0) == Token("cs1", 4);
  }

  /** A worked line: a lower-case number, an empty field and a lower-case
      prerequisite. The fields are split at every comma... */
  lemma ExampleFields()
    ensures Fields("cs3,Algo,,cs2") == ["cs3", "Algo", "", "cs2"]
  {
    var xs := ["cs3", "Algo", "", "cs2"];
    var a, b := ["cs3", "Algo"], ["cs3", "Algo", ""];
    assert Join(xs, ",") == "cs3,Algo,,cs2" by {
      assert xs[..3] == b && b[..2] == a && a[..1] == ["cs3"];
      assert Join(a, ",") == "cs3" + "," + "Algo";
      assert Join(b, ",") == "cs3" + "," + "Algo" + "," + "";
      assert Join(xs, ",") == "cs3" + "," + "Algo" + "," + "" + "," + "cs2";
      assert "cs3" + "," + "Algo" + "," + "" + "," + "cs2" == "cs3,Algo,,cs2";
    }
    FieldsJoin(xs);
  }

  /** ...the empty field is dropped and the prerequisite upper-cased... */
  lemma ExamplePrerequisites()
    ensures Prerequisites(["", "cs2"]) == ["CS2"]
  {
    assert ["", "cs2"][1..] == ["cs2"];
    assert ["cs2"][1..] == [];
    assert Upper("cs2") == "CS2";
  }

  /** ...and the course has an upper-cased number and its title as written. */
  lemma ExampleLine()
    ensures ParseLine("cs3,Algo,,cs2") == Some(Course("CS3", "Algo", ["CS2"]))
  {
    var fs := ["cs3", "Algo", "", "cs2"];
    ExampleFields();
    assert fs[2..] == ["", "cs2"];
    ExamplePrerequisites();
    assert Upper("cs3") == "CS3";
  }
}
