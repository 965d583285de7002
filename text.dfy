/** Strings as the course catalog uses them: the ordering of std::string that
    the course index sorts by, ASCII upper-casing, and joining with a separator. */
module Text {

  /** std::string's operator<: lexicographic comparison of the characters,
      where a proper prefix sorts before the longer string. */
  predicate Less(a: string, b: string)
  {
    if |b| == 0 then false
    else if |a| == 0 then true
    else if a[0] != b[0] then a[0] < b[0]
    else Less(a[1..], b[1..])
  }

  lemma {:induction false} LessIrreflexive(a: string)
    ensures !Less(a, a)
  {
    if |a| > 0 {
      LessIrreflexive(a[1..]);
    }
  }

  lemma {:induction false} LessTransitive(a: string, b: string, c: string)
    requires Less(a, b) && Less(b, c)
    ensures Less(a, c)
  {
    if |a| > 0 && a[0] == b[0] && b[0] == c[0] {
      LessTransitive(a[1..], b[1..], c[1..]);
    }
  }

  /** Two different strings are always ordered one way or the other. */
  lemma {:induction false} LessTotal(a: string, b: string)
    requires a != b
    ensures Less(a, b) || Less(b, a)
  {
    if |a| > 0 && |b| > 0 && a[0] == b[0] {
      assert a == [a[0]] + a[1..] && b == [b[0]] + b[1..];
      LessTotal(a[1..], b[1..]);
    }
  }

  lemma LessAsymmetric(a: string, b: string)
    requires Less(a, b)
    ensures !Less(b, a)
  {
    if Less(b, a) {
      LessTransitive(a, b, a);
      LessIrreflexive(a);
    }
  }

  /** a < b and b <= c give a < c ("<=" being "not greater"). */
  lemma LessThenNotGreater(a: string, b: string, c: string)
    requires Less(a, b) && !Less(c, b)
    ensures Less(a, c)
  {
    if b == c {
    } else {
      LessTotal(b, c);
      LessTransitive(a, b, c);
    }
  }

  /** a <= b and b < c give a < c. */
  lemma NotGreaterThenLess(a: string, b: string, c: string)
    requires !Less(b, a) && Less(b, c)
    ensures Less(a, c)
  {
    if a != b {
      LessTotal(a, b);
      LessTransitive(a, b, c);
    }
  }

  predicate IsLowerAscii(ch: char)
  {
    'a' <= ch <= 'z'
  }

  /** std::toupper in the "C" locale: 'a'..'z' become 'A'..'Z', every other
      character is left alone. */
  function UpperChar(ch: char): (u: char)
    ensures !IsLowerAscii(u)
    ensures IsLowerAscii(ch) ==> u as int == ch as int - 32
    ensures !IsLowerAscii(ch) ==> u == ch
  {
    if IsLowerAscii(ch) then (ch as int - 32) as char else ch
  }

  /** The upper-cased copy of a string, character by character. */
  function Upper(s: string): string
  {
    if s == [] then [] else [UpperChar(s[0])] + Upper(s[1..])
  }

  predicate NoLower(s: string)
  {
    forall i :: 0 <= i < |s| ==> !IsLowerAscii(s[i])
  }

  lemma {:induction false} UpperAt(s: string)
    ensures |Upper(s)| == |s|
    ensures forall i :: 0 <= i < |s| ==> Upper(s)[i] == UpperChar(s[i])
  {
    if s != [] {
      UpperAt(s[1..]);
    }
  }

  /** After upper-casing, no lower-case letter is left, and nothing else changes:
      a string that had none is its own upper-cased form. */
  lemma UpperNoLower(s: string)
    ensures NoLower(Upper(s))
    ensures NoLower(s) ==> Upper(s) == s
  {
    UpperAt(s);
  }

  lemma UpperIdempotent(s: string)
    ensures Upper(Upper(s)) == Upper(s)
  {
    UpperNoLower(s);
    UpperNoLower(Upper(s));
  }

  /** Upper-casing neither creates nor removes a comma. */
  lemma UpperKeepsComma(s: string)
    ensures (',' in Upper(s)) <==> (',' in s)
  {
    UpperAt(s);
    if ',' in s {
      var i :| 0 <= i < |s| && s[i] == ',';
      assert Upper(s)[i] == ',';
    }
  }

  /** toUpperStr: copies the input and rewrites the copy in place, one
      character at a time. */
  method ToUpperStr(input: string) returns (result: string)
    ensures |result| == |input|
    ensures forall i :: 0 <= i < |input| ==> result[i] == UpperChar(input[i])
    ensures result == Upper(input)
  {
    result := input;
    var i := 0;
    while i < |result|
      invariant 0 <= i <= |result| == |input|
      invariant forall k :: 0 <= k < i ==> result[k] == UpperChar(input[k])
      invariant forall k :: i <= k < |input| ==> result[k] == input[k]
    {
      result := result[i := UpperChar(result[i])];
      i := i + 1;
    }
    UpperAt(input);
  }

  /** The position of the first comma in s at or after pos, or |s| when
      there is none. */
  function NextComma(s: string, pos: nat): (e: nat)
    requires pos <= |s|
    ensures pos <= e <= |s|
    decreases |s| - pos
  {
    if pos == |s| then pos
    else if s[pos] == ',' then pos
    else NextComma(s, pos + 1)
  }

  /** NextComma finds the first comma: there is none before it, and it is
      one unless it is the end of the string. */
  lemma {:induction false} NextCommaFirst(s: string, pos: nat)
    requires pos <= |s|
    ensures forall i :: pos <= i < NextComma(s, pos) ==> s[i] != ','
    ensures NextComma(s, pos) < |s| ==> s[NextComma(s, pos)] == ','
    decreases |s| - pos
  {
    if pos < |s| && s[pos] != ',' {
      NextCommaFirst(s, pos + 1);
    }
  }

  /** A comma-free prefix followed by a comma ends where the first comma is. */
  lemma NextCommaAfter(x: string, rest: string)
    requires ',' !in x && rest != [] && rest[0] == ','
    ensures NextComma(x + rest, 0) == |x|
  {
    var s := x + rest;
    NextCommaFirst(s, 0);
    assert forall i :: 0 <= i < |x| ==> s[i] == x[i];
    assert s[|x|] == ',';
  }

  /** Finding the next comma after a prefix p, inside the part b that
      follows it, is finding it in b. */
  lemma {:induction false} NextCommaShift(p: string, b: string, q: nat)
    requires q <= |b|
    ensures NextComma(p + b, |p| + q) == |p| + NextComma(b, q)
    decreases |b| - q
  {
    if q < |b| {
      assert (p + b)[|p| + q] == b[q];
      if b[q] != ',' {
        NextCommaShift(p, b, q + 1);
      }
    }
  }

  /** The elements of xs with sep between every two neighbours. */
  function Join(xs: seq<string>, sep: string): string
  {
    if |xs| == 0 then []
    else if |xs| == 1 then xs[0]
    else Join(xs[..|xs| - 1], sep) + sep + xs[|xs| - 1]
  }

  lemma {:induction false} JoinCons(x: string, xs: seq<string>, sep: string)
    requires xs != []
    ensures Join([x] + xs, sep) == x + sep + Join(xs, sep)
  {
    var ys := [x] + xs;
    if |xs| > 1 {
      assert ys[..|ys| - 1] == [x] + xs[..|xs| - 1];
      JoinCons(x, xs[..|xs| - 1], sep);
    } else {
      assert ys[..|ys| - 1] == [x];
    }
  }

  /** Every character of a joined string comes from one of the parts or from
      the separator. */
  lemma {:induction false} JoinChars(xs: seq<string>, sep: string, ch: char)
    requires ch in Join(xs, sep)
    ensures ch in sep || exists k :: 0 <= k < |xs| && ch in xs[k]
  {
    if |xs| > 1 {
      var init := xs[..|xs| - 1];
      if ch in Join(init, sep) {
        JoinChars(init, sep, ch);
        if ch !in sep {
          var k :| 0 <= k < |init| && ch in init[k];
          assert xs[k] == init[k];
        }
      } else if ch !in sep {
        assert ch in xs[|xs| - 1];
      }
    } else if |xs| == 1 {
      assert ch in xs[0];
    }
  }
}
