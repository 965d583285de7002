# Course planner index

A model of the core of a small course-advising program (`ProjectTwo.cpp`).
The program reads a course file with one comma-separated line per course:
a course number, a title, then zero or more prerequisite course numbers. It
stores the courses in an unbalanced binary search tree keyed by course
number. It can then list all courses in number order, or look one up and
print its details.

The Dafny project has these modules:

- `Text`: the string ordering the tree sorts by (`std::string`'s `operator<`).
  Also ASCII upper-casing (`toUpperStr`), the comma search behind
  `getline(ss, token, ',')`, and joining strings with a separator.
- `Courses`: the `Course` record and an `Option` type, which stands for a
  `nullptr` or a skipped line.
- `CourseTree`: the search tree as a value. `Insert` is `insertNode`,
  `InOrder` is `inOrder`, `Search` is `searchNode`, and `Load` is a sequence
  of inserts. The lemmas prove the ordering invariant, the stored multiset,
  sortedness and stability of the listing, and which course search returns
  when numbers repeat.
- `CourseIndex`: the tree as the program keeps it. `Node` and `CourseBST`
  are heap classes with `left`/`right`/`root` links, updated in place by
  `Insert`. Each object carries a ghost footprint and the `CourseTree` value
  it stands for. `CourseBST` also keeps the ghost sequence of courses
  inserted so far, and its operations are stated in terms of that sequence.
- `Report`: the lines `printInOrder` and `printCourseInfo` print, returned
  as strings. It also proves that the printed details determine the course
  for every course the loader can produce: a comma-free number, and
  prerequisites that are non-empty, comma-free and upper-case. Without that
  condition the claim fails: `Course("A", "B, C", [])` and
  `Course("A, B", "C", [])` print the same two lines.
- `Loader`: the body of `loadCourses`'s loop for one line, and the loop over
  the lines. `GetToken` is one `getline(ss, token, ',')` call. `Fields` is
  every call until one fails, and `ParseLine` is the course a line yields.
  The methods `ParseCourseLine`, `ReadPrerequisites` and `LoadCourses` do
  the work step by step, as the source does, and are proved equal to those
  functions.

A `getline(ss, token, ',')` call fails exactly when nothing is left to read.
Otherwise it returns the text up to the next comma, or to the end of the
line, and moves past that comma. So a comma that ends the line opens no
further field. As a result, a line with no comma before its last character
yields no course (`ParseLineNone`): for example `"CS1"` or `"CS1,"`.
A line `"CS1,,"` yields a course with an empty title.

When several courses share a number, search returns the one inserted first.
Insert sends equal numbers to the right (`ProjectTwo.cpp:43-47`), and
`searchNode` stops at the first equal node on the way down
(`ProjectTwo.cpp:65-66`). Every later course with that number lies below
that node. `CourseBST.Search` is proved to return the earliest inserted
course with the number (`CourseTree.SearchFirstLoaded`).

## Model

| member | source | states |
|---|---|---|
| Text.Less | ProjectTwo.cpp:43 | the definition of `std::string`'s `<` on course numbers (also used at `ProjectTwo.cpp:67`): character by character, a proper prefix first. Its properties are `LessIrreflexive`, `LessTransitive` and `LessTotal` |
| Text.LessIrreflexive | ProjectTwo.cpp:43 | no course number is less than itself under `std::string`'s `<` |
| Text.LessTransitive | ProjectTwo.cpp:43 | the number order is transitive |
| Text.LessTotal | ProjectTwo.cpp:43 | two different numbers are ordered one way or the other |
| Text.UpperChar | ProjectTwo.cpp:114 | `toupper` in the "C" locale: 'a'..'z' move down by 32 to 'A'..'Z', every other character is unchanged, and the result is never a lower-case letter |
| Text.UpperNoLower | ProjectTwo.cpp:111-116 | an upper-cased string has no lower-case letter, and a string without one is its own upper-cased form |
| Text.UpperIdempotent | ProjectTwo.cpp:111-116 | upper-casing twice is upper-casing once |
| Text.UpperKeepsComma | ProjectTwo.cpp:111-116 | upper-casing neither adds nor removes a comma |
| Text.ToUpperStr | ProjectTwo.cpp:111-116 | the in-place loop over the copy gives a string of the same length, with each character upper-cased, equal to `Upper(input)` |
| Text.NextCommaFirst | ProjectTwo.cpp:137 | the comma search stops at the first comma at or after the position, or at the end when there is none |
| CourseTree.Insert | ProjectTwo.cpp:35-48 | `insertNode` always leaves a node where it was called (the empty subtree gets a new one) |
| CourseTree.InsertElems | ProjectTwo.cpp:35-48 | an insert adds exactly the inserted course to the stored multiset: nothing is rejected, merged or lost, duplicates included |
| CourseTree.BelowElems | ProjectTwo.cpp:43-47 | the left-subtree bound holds exactly when every stored number is strictly less than the key |
| CourseTree.NotBelowElems | ProjectTwo.cpp:43-47 | the right-subtree bound holds exactly when no stored number is less than the key |
| CourseTree.InsertPreservesBST | ProjectTwo.cpp:35-48 | insert keeps the invariant: left subtrees strictly smaller, right subtrees greater or equal |
| CourseTree.InsertKeepsOrder | ProjectTwo.cpp:43-47 | among courses with one number, the listing after an insert is the old listing with the new course at the end |
| CourseTree.InOrder | ProjectTwo.cpp:50-58 | the definition of the traversal: left subtree, node, right subtree. `InOrderElems` and `InOrderSorted` state what it yields |
| CourseTree.InOrderElems | ProjectTwo.cpp:50-58 | the traversal lists every stored course exactly as often as it is stored |
| CourseTree.InOrderSorted | ProjectTwo.cpp:50-58 | the traversal of a search tree is in non-decreasing number order |
| CourseTree.Search | ProjectTwo.cpp:60-72 | any course that search finds has the searched number |
| CourseTree.SearchFirstListed | ProjectTwo.cpp:60-72 | in a search tree, search returns the first course in the traversal with that number, and nothing when there is none |
| CourseTree.SearchFindsStored | ProjectTwo.cpp:60-72 | search finds something exactly when a stored course has that number |
| CourseTree.Load | ProjectTwo.cpp:90-92 | the definition of a sequence of `insert` calls in order, as `loadCourses` makes them (`ProjectTwo.cpp:155`). `LoadIsBST`, `LoadElems`, `LoadSorted`, `LoadKeepsOrder` and `SearchFirstLoaded` state its properties |
| CourseTree.LoadIsBST | ProjectTwo.cpp:90-92 | any sequence of inserts from a search tree gives a search tree |
| CourseTree.LoadElems | ProjectTwo.cpp:90-92 | after a sequence of inserts the tree holds the old courses plus exactly the multiset of the inserted ones |
| CourseTree.LoadLength | ProjectTwo.cpp:94-96 | the traversal grows by one entry per insert |
| CourseTree.LoadSorted | ProjectTwo.cpp:94-96 | whatever the insertion order, the listing is sorted by number |
| CourseTree.LoadKeepsOrder | ProjectTwo.cpp:94-96 | among courses with one number, the listing keeps insertion order: it is stable |
| CourseTree.SearchFirstLoaded | ProjectTwo.cpp:98-104 | with duplicate numbers, search returns the earliest inserted course with the number, and nothing when none was inserted |
| CourseTree.LoadAppend | ProjectTwo.cpp:90-92 | loading one more course is one more insert into the tree loaded so far |
| CourseIndex.Node.constructor | ProjectTwo.cpp:28 | a new node holds the course and has no children: the tree of one insert into the empty tree |
| CourseIndex.Node.Insert | ProjectTwo.cpp:35-48 | the in-place recursive insert allocates only new nodes and leaves the subtree equal to `CourseTree.Insert` of the old one |
| CourseIndex.SearchNode | ProjectTwo.cpp:60-72 | the node returned is null or one of the subtree holding the key, and its course is what `CourseTree.Search` returns |
| CourseIndex.InOrder | ProjectTwo.cpp:50-58 | the lines printed for a subtree are one heading per course of its traversal |
| CourseIndex.CourseBST.constructor | ProjectTwo.cpp:84 | a new index is empty and nothing has been inserted |
| CourseIndex.CourseBST.Insert | ProjectTwo.cpp:90-92 | the index stays a valid search tree, equal to `CourseTree.Insert` of the old one, and the course is appended to the inserted sequence |
| CourseIndex.CourseBST.PrintInOrder | ProjectTwo.cpp:94-96 | without changing the index, one line per inserted course, holding exactly the inserted multiset, sorted by number, and in insertion order among equal numbers |
| CourseIndex.CourseBST.Search | ProjectTwo.cpp:98-104 | without changing the index: nothing exactly when no inserted course has the key; otherwise a course with the key, namely the first inserted one |
| Report.Heading | ProjectTwo.cpp:56 | the definition of the "number, title" line (also printed at `ProjectTwo.cpp:164`). `HeadingInjective` states when it determines the course |
| Report.Listing | ProjectTwo.cpp:56 | one "number, title" line per course, in order |
| Report.PrintCourseInfo | ProjectTwo.cpp:163-178 | the heading, then "Prerequisites: None" or the prerequisites separated by ", " with no trailing separator |
| Report.PrerequisitesLine | ProjectTwo.cpp:166-177 | the definition of the second detail line. `NoneExactlyWhenEmpty` and `JoinInjective` state its properties |
| Report.CourseInfo | ProjectTwo.cpp:163-178 | the definition of the two detail lines. `PrintCourseInfo` builds them, and `CourseInfoInjective` states that they determine the course |
| Report.HeadingInjective | ProjectTwo.cpp:164 | for comma-free numbers, equal heading lines mean equal numbers and titles |
| Report.JoinInjective | ProjectTwo.cpp:169-175 | the printed prerequisite list determines the prerequisites when none contains a comma |
| Report.NoneExactlyWhenEmpty | ProjectTwo.cpp:166-177 | "Prerequisites: None" is printed exactly when there are no prerequisites, for upper-cased prerequisites |
| Report.CourseInfoInjective | ProjectTwo.cpp:163-178 | two courses the loader can produce print the same details only if they are equal |
| Loader.GetToken | ProjectTwo.cpp:137 | a getline call fails exactly at the end of the line, and otherwise moves forward and stays within the line |
| Loader.FieldsFrom | ProjectTwo.cpp:137-153 | the definition of the tokens that repeated `getline(ss, token, ',')` calls hand out from a position until one fails. `FieldsCommaFree`, `FieldsCons` and `FieldsJoin` state its properties |
| Loader.Fields | ProjectTwo.cpp:131-153 | the tokens of a whole line, read from its start. `ParseLineNone` and `FieldsJoin` state its properties |
| Loader.Prerequisites | ProjectTwo.cpp:149-153 | the definition of the prerequisites the inner loop collects from the remaining tokens. `ReadPrerequisites` computes it, and `PrerequisitesAppend`, `PrerequisitesOne`, `PrerequisitesShape` and `PrerequisitesKeep` state its properties |
| Loader.ParseLine | ProjectTwo.cpp:127-153 | the definition of the course one line yields. `ParseCourseLine` computes it, and `ParseLineNone`, `ParsedPrintable` and `ParseFormat` state its properties |
| Loader.FieldsCommaFree | ProjectTwo.cpp:137-153 | no token contains a comma |
| Loader.FieldsSingle | ProjectTwo.cpp:137 | a non-empty line without a comma is one token |
| Loader.FieldsCons | ProjectTwo.cpp:137-146 | a comma-free part followed by a comma is the first token, and the tokens of the rest follow |
| Loader.FieldsJoin | ProjectTwo.cpp:137-153 | splitting undoes joining with commas, for comma-free parts whose last one is non-empty |
| Loader.ParseLineNone | ProjectTwo.cpp:127-145 | a line yields no course exactly when it has no comma before its last character (empty line, no comma, or only a trailing comma) |
| Loader.ReadPrerequisites | ProjectTwo.cpp:149-153 | the inner loop collects, in order, the upper-cased non-empty tokens that remain |
| Loader.ParseCourseLine | ProjectTwo.cpp:127-155 | the loop body yields exactly `ParseLine(line)`: nothing for a line with fewer than two tokens, otherwise the upper-cased number, the title as written and the prerequisites |
| Loader.PrerequisitesAppend | ProjectTwo.cpp:149-153 | prerequisites are collected token by token, so their order is the order of the tokens |
| Loader.PrerequisitesOne | ProjectTwo.cpp:150-151 | an empty token adds nothing and any other token adds its upper-cased text |
| Loader.PrerequisitesShape | ProjectTwo.cpp:149-153 | every collected prerequisite is non-empty and has no lower-case letter and no comma |
| Loader.PrerequisitesKeep | ProjectTwo.cpp:149-153 | non-empty, already upper-case prerequisites come through unchanged |
| Loader.ParsedPrintable | ProjectTwo.cpp:127-155 | a parsed course has a comma-free upper-case number, a comma-free title and clean prerequisites |
| Loader.ParseFormat | ProjectTwo.cpp:127-155 | writing such a course as a line and parsing it gives the course back |
| Loader.Parsed | ProjectTwo.cpp:126-156 | the definition of the courses a file's lines yield, in file order. `LoadCourses` inserts exactly these, and `ParsedShape` states their properties |
| Loader.ParsedShape | ProjectTwo.cpp:126-156 | the file yields at most one course per line, each printable unambiguously |
| Loader.LoadCourses | ProjectTwo.cpp:118-160 | the index receives, in file order, exactly the courses the lines yield, and only new nodes are allocated |
| Loader.ExampleTrailingComma | ProjectTwo.cpp:143-145 | "cs1," is skipped: the second getline call fails |
| Loader.ExampleFields | ProjectTwo.cpp:137-153 | "cs3,Algo,,cs2" splits into "cs3", "Algo", "" and "cs2" |
| Loader.ExamplePrerequisites | ProjectTwo.cpp:149-153 | the tokens "" and "cs2" give the single prerequisite "CS2" |
| Loader.ExampleLine | ProjectTwo.cpp:127-155 | "cs3,Algo,,cs2" is the course CS3, "Algo", with prerequisite CS2 |

## Left out

- `main` and its menu (`ProjectTwo.cpp:184-275`): interactive console input and output.
- Opening and closing the file, the "Could not open file" and "Data loaded" messages, and reading the file line by line (`ProjectTwo.cpp:119-126`, `ProjectTwo.cpp:158-159`). These are I/O: `LoadCourses` receives the lines as a sequence.
- `destroy` and `~CourseBST` (`ProjectTwo.cpp:74-88`): Dafny's heap is garbage-collected, so releasing nodes has no counterpart.
- Output to `cout`: `printInOrder`, `inOrder` and `printCourseInfo` return their lines as strings, without the line terminator.
- `insertNode` takes a `Node*&` and may overwrite the caller's `Node*`. `Node.Insert` does that overwrite at the parent, and `CourseBST.Insert` does it at the root.
- `search` returns the address of the course inside the stored node. The model returns the course value. Nothing changes a stored course after insertion, so no caller can tell the difference.
- Strings are modelled as sequences of characters rather than bytes. `Less` compares characters by code point, which matches `std::string`'s unsigned byte comparison for ASCII text.
- `Text.UpperChar`: upper-cases only 'a'..'z'. This is `toupper` in the "C" locale; other locales are not modelled.
- `Loader.ParseFormat`: requires a non-empty title or at least one prerequisite. Otherwise the written line ends in the comma after the number, and the loader skips it.
- Stack depth: the recursion in `insertNode`, `inOrder` and `searchNode` can be as deep as the tree, which is linear in a degenerate tree. Running out of stack is not modelled.
