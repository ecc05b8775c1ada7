/**
 * An instructor: name, home department, title and the list of degrees held.
 * The constructor strips the three texts and keeps its own copy of the
 * degree list; nothing changes an instructor afterwards.
 */
module Instructors {
  import opened Text
  import opened Degrees

  datatype Instructor = Instructor(name: string, dept: string, title: string, degrees: seq<Degree>)

  /** Instructor(name, dept, title, degrees): the three texts are stripped,
      the degrees are kept in the order given. */
  function Create(name: string, dept: string, title: string, degrees: seq<Degree>): (r: Instructor)
    ensures IsTrimmed(r.name) && IsTrimmed(r.dept) && IsTrimmed(r.title)
    ensures |r.name| <= |name| && |r.dept| <= |dept| && |r.title| <= |title|
    ensures r.degrees == degrees
  {
    Instructor(Trim(name), Trim(dept), Trim(title), degrees)
  }

  /** Each stored text is its argument with exactly the surrounding
      whitespace removed. */
  lemma CreateStrips(name: string, dept: string, title: string, degrees: seq<Degree>)
    ensures var r := Create(name, dept, title, degrees);
      IsStrippingOf(r.name, name) && IsStrippingOf(r.dept, dept) && IsStrippingOf(r.title, title)
  {
    TrimIsStripping(name);
    TrimIsStripping(dept);
    TrimIsStripping(title);
  }

  /** What the constructor produces: the three texts carry no surrounding
      whitespace. */
  predicate Stripped(i: Instructor) {
    IsTrimmed(i.name) && IsTrimmed(i.dept) && IsTrimmed(i.title)
  }

  /** Constructing again from an instructor's own fields gives it back. */
  lemma CreateIdempotent(i: Instructor)
    requires Stripped(i)
    ensures Create(i.name, i.dept, i.title, i.degrees) == i
  {
    TrimTrimmed(i.name);
    TrimTrimmed(i.dept);
    TrimTrimmed(i.title);
  }

  /** Whitespace around the name or the department does not matter. */
  lemma CreateIgnoresPadding(pre: string, name: string, post: string, pre': string, dept: string, post': string,
                             title: string, degrees: seq<Degree>)
    requires AllSpace(pre) && AllSpace(post) && AllSpace(pre') && AllSpace(post')
    ensures Create(pre + name + post, pre' + dept + post', title, degrees) == Create(name, dept, title, degrees)
  {
    TrimIgnoresPadding(pre, name, post);
    TrimIgnoresPadding(pre', dept, post');
  }

  // ---------------------------------------------------------------------------
  // Equality

  /** i == j: the same name and the same department; the title and the
      degrees are not compared. */
  function InstructorEq(a: Instructor, b: Instructor): (r: bool)
    ensures r <==> a.(title := b.title, degrees := b.degrees) == b
  {
    a.name == b.name && a.dept == b.dept
  }

  /** Instructor equality is an equivalence relation. */
  lemma InstructorEqEquivalence(a: Instructor, b: Instructor, c: Instructor)
    ensures InstructorEq(a, a)
    ensures InstructorEq(a, b) ==> InstructorEq(b, a)
    ensures InstructorEq(a, b) && InstructorEq(b, c) ==> InstructorEq(a, c)
  {
  }

  /** Two constructed instructors are equal exactly when their stripped
      names and stripped departments agree, whatever their titles and
      degrees. */
  lemma CreateEq(name: string, dept: string, title: string, degrees: seq<Degree>,
                 name': string, dept': string, title': string, degrees': seq<Degree>)
    ensures InstructorEq(Create(name, dept, title, degrees), Create(name', dept', title', degrees'))
        <==> Trim(name) == Trim(name') && Trim(dept) == Trim(dept')
  {
  }

  // ---------------------------------------------------------------------------
  // str(i)

  function Quote(s: string): (r: string)
    ensures |r| == |s| + 2 && r[0] == '"' && r[|r| - 1] == '"'
  {
    "\"" + s + "\""
  }

  /** Each text wrapped in double quotes. */
  function Quotes(texts: seq<string>): (r: seq<string>)
    ensures |r| == |texts| && forall k | 0 <= k < |texts| :: r[k] == Quote(texts[k])
  {
    if texts == [] then [] else [Quote(texts[0])] + Quotes(texts[1..])
  }

  /** str(d) of each degree, in order. */
  function DegreeTexts(ds: seq<Degree>): (r: seq<string>)
    ensures |r| == |ds| && forall k | 0 <= k < |ds| :: r[k] == Degrees.Render(ds[k])
  {
    if ds == [] then [] else [Degrees.Render(ds[0])] + DegreeTexts(ds[1..])
  }

  /** str(i): "name","dept","title", followed by the degrees, each in double
      quotes, separated by commas. The line opens with a double quote; it
      ends with a comma exactly when there are no degrees, and otherwise
      with the closing quote of the last degree. */
  function Render(i: Instructor): (r: string)
    ensures r != [] && r[0] == '"'
    ensures r[|r| - 1] == ',' <==> i.degrees == []
    ensures i.degrees != [] ==> r[|r| - 1] == '"'
  {
    var q := Quotes(DegreeTexts(i.degrees));
    if q != [] then
      JoinEndsWithLast(q);
      Quote(i.name) + "," + Quote(i.dept) + "," + Quote(i.title) + "," + Join(",", q)
    else
      Quote(i.name) + "," + Quote(i.dept) + "," + Quote(i.title) + "," + Join(",", q)
  }

  lemma {:induction false} JoinEndsWithLast(q: seq<string>)
    requires q != [] && forall k | 0 <= k < |q| :: q[k] != [] && q[k][|q[k]| - 1] == '"'
    ensures var j := Join(",", q); j != [] && j[|j| - 1] == '"'
    decreases |q|
  {
    if |q| > 1 {
      JoinEndsWithLast(q[1..]);
    }
  }

  // ---------------------------------------------------------------------------
  // Reading a rendered line back

  /** Every other element, starting with the second. */
  function Odds(s: seq<string>): (r: seq<string>)
    ensures |r| == |s| / 2
  {
    if |s| < 2 then [] else [s[1]] + Odds(s[2..])
  }

  /** The contents of the double-quoted fields of a line, in order: the
      pieces between the first and second quote, the third and fourth, and
      so on. */
  function QuotedFields(line: string): seq<string> {
    Odds(Split(line, '"'))
  }

  /** How a line of quoted fields falls apart at the quotes: an empty piece,
      then each field followed by the comma between it and the next, and
      after the last field whatever follows its closing quote. */
  function Interleave(fields: seq<string>, tail: string): seq<string>
    requires fields != []
  {
    if |fields| == 1 then [fields[0], tail] else [fields[0], ","] + Interleave(fields[1..], tail)
  }

  lemma {:induction false} OddsInterleave(x: string, fields: seq<string>, tail: string)
    requires fields != []
    ensures Odds([x] + Interleave(fields, tail)) == fields
    decreases |fields|
  {
    var s := [x] + Interleave(fields, tail);
    if |fields| == 1 {
      assert s == [x, fields[0], tail];
      assert s[2..] == [tail];
    } else {
      OddsInterleave(",", fields[1..], tail);
      assert s[2..] == [","] + Interleave(fields[1..], tail);
      assert fields == [fields[0]] + fields[1..];
    }
  }

  predicate QuoteFree(s: string) {
    '"' !in s
  }

  /** Every piece of the interleaving is free of double quotes when the
      fields and the tail are. */
  lemma {:induction false} InterleaveQuoteFree(fields: seq<string>, tail: string)
    requires fields != [] && forall k | 0 <= k < |fields| :: QuoteFree(fields[k])
    requires QuoteFree(tail)
    ensures forall k | 0 <= k < |Interleave(fields, tail)| :: QuoteFree(Interleave(fields, tail)[k])
    decreases |fields|
  {
    var s := Interleave(fields, tail);
    if |fields| > 1 {
      InterleaveQuoteFree(fields[1..], tail);
      var rest := Interleave(fields[1..], tail);
      assert s == [fields[0], ","] + rest;
      forall k | 0 <= k < |s| ensures QuoteFree(s[k]) {
        if k >= 2 {
          assert s[k] == rest[k - 2];
        }
      }
    }
  }

  /** The interleaving never is empty. */
  lemma InterleaveNonEmpty(fields: seq<string>, tail: string)
    requires fields != []
    ensures |Interleave(fields, tail)| >= 2
  {
  }

  /** Joining with a leading piece. */
  lemma JoinCons(sep: string, x: string, ps: seq<string>)
    requires ps != []
    ensures Join(sep, [x] + ps) == x + sep + Join(sep, ps)
  {
    assert ([x] + ps)[1..] == ps;
  }

  /** One more field in front keeps a quoted line and its interleaving in
      step. */
  lemma JoinQuotedStep(f: string, more: seq<string>, tail: string)
    requires more != []
    requires Join(",", Quotes(more)) + tail == Join("\"", [""] + Interleave(more, tail))
    ensures Join(",", Quotes([f] + more)) + tail == Join("\"", [""] + Interleave([f] + more, tail))
  {
    var inner := Interleave(more, tail);
    var j := Join("\"", inner);
    InterleaveNonEmpty(more, tail);
    assert ([f] + more)[1..] == more;
    assert Quotes([f] + more) == [Quote(f)] + Quotes(more);
    JoinCons(",", Quote(f), Quotes(more));
    JoinCons("\"", "", inner);
    var left := Quote(f) + "," + Join(",", Quotes(more));
    assert left + tail == Quote(f) + "," + ("" + "\"" + j);
    assert Interleave([f] + more, tail) == [f] + ([","] + inner);
    JoinCons("\"", ",", inner);
    JoinCons("\"", f, [","] + inner);
    JoinCons("\"", "", Interleave([f] + more, tail));
  }

  /** A line of quoted fields separated by commas, followed by a tail, is
      the interleaving joined with double quotes. */
  lemma {:induction false} JoinQuotedLine(fields: seq<string>, tail: string)
    requires fields != []
    ensures Join(",", Quotes(fields)) + tail == Join("\"", [""] + Interleave(fields, tail))
    decreases |fields|
  {
    var f := fields[0];
    if |fields| == 1 {
      assert Join(",", Quotes(fields)) == Quote(f);
      JoinCons("\"", "", [f, tail]);
      JoinCons("\"", f, [tail]);
    } else {
      var more := fields[1..];
      JoinQuotedLine(more, tail);
      JoinQuotedStep(f, more, tail);
      assert fields == [f] + more;
    }
  }

  /** Splitting fields written in quotes and separated by commas at the
      quotes gives an empty piece, then the interleaving. */
  lemma SplitQuoted(fields: seq<string>, tail: string)
    requires fields != [] && forall k | 0 <= k < |fields| :: QuoteFree(fields[k])
    requires QuoteFree(tail)
    ensures Split(Join(",", Quotes(fields)) + tail, '"') == [""] + Interleave(fields, tail)
  {
    var parts := [""] + Interleave(fields, tail);
    JoinQuotedLine(fields, tail);
    InterleaveQuoteFree(fields, tail);
    forall k | 0 <= k < |parts| ensures '"' !in parts[k] {
      if k > 0 {
        assert parts[k] == Interleave(fields, tail)[k - 1];
      }
    }
    SplitJoin(parts, '"');
  }

  /** A degree renders without double quotes when its kind and institution
      have none. */
  predicate DegreeQuoteFree(d: Degree) {
    QuoteFree(d.kind) && QuoteFree(d.institution)
  }

  lemma DegreeTextQuoteFree(d: Degree)
    requires DegreeQuoteFree(d)
    ensures QuoteFree(Degrees.Render(d))
  {
    var y := IntToString(d.year);
    assert QuoteFree(y) by {
      forall k | 0 <= k < |y| ensures y[k] != '"' {
        assert y[k] == '-' || IsDigit(y[k]);
      }
    }
    var r := y + ", " + d.kind + ", " + d.institution;
    assert Degrees.Render(d) == r;
    forall k | 0 <= k < |r| ensures r[k] != '"' {
      if k < |y| {
        assert r[k] == y[k];
      } else if |y| + 2 <= k < |y| + 2 + |d.kind| {
        assert r[k] == d.kind[k - |y| - 2];
      } else if |y| + 4 + |d.kind| <= k {
        assert r[k] == d.institution[k - |y| - 4 - |d.kind|];
      }
    }
  }

  /** Nothing in the instructor holds a double quote. */
  predicate InstructorQuoteFree(i: Instructor) {
    QuoteFree(i.name) && QuoteFree(i.dept) && QuoteFree(i.title) &&
    forall k | 0 <= k < |i.degrees| :: DegreeQuoteFree(i.degrees[k])
  }

  lemma {:induction false} QuotesAppend(a: seq<string>, b: seq<string>)
    ensures Quotes(a + b) == Quotes(a) + Quotes(b)
    decreases |a|
  {
    if a == [] {
      assert a + b == b;
    } else {
      assert (a + b)[1..] == a[1..] + b;
      QuotesAppend(a[1..], b);
    }
  }

  lemma JoinThree(sep: string, x: string, y: string, z: string)
    ensures Join(sep, [x, y, z]) == x + sep + y + sep + z
  {
    JoinCons(sep, x, [y, z]);
    JoinCons(sep, y, [z]);
  }

  /** str(i) as one list of quoted fields: the three texts, then the degrees,
      and a trailing comma when there are no degrees. */
  lemma RenderAsFields(i: Instructor)
    ensures var fields := [i.name, i.dept, i.title] + DegreeTexts(i.degrees);
      Render(i) == Join(",", Quotes(fields)) + (if i.degrees == [] then "," else "")
  {
    var head := [i.name, i.dept, i.title];
    var degs := DegreeTexts(i.degrees);
    var qn, qd, qt := Quote(i.name), Quote(i.dept), Quote(i.title);
    var d := Join(",", Quotes(degs));
    assert Render(i) == qn + "," + qd + "," + qt + "," + d;
    assert Quotes(head) == [qn, qd, qt];
    JoinThree(",", qn, qd, qt);
    QuotesAppend(head, degs);
    if degs == [] {
      assert head + degs == head;
      assert d == "";
    } else {
      JoinAppend(",", Quotes(head), Quotes(degs));
    }
  }

  /** The quoted fields of str(i) are the name, the department, the title
      and str(d) of each degree, in order, when nothing holds a double
      quote. */
  lemma RenderQuotedFields(i: Instructor)
    requires InstructorQuoteFree(i)
    ensures QuotedFields(Render(i)) == [i.name, i.dept, i.title] + DegreeTexts(i.degrees)
  {
    var fields := [i.name, i.dept, i.title] + DegreeTexts(i.degrees);
    assert forall k | 0 <= k < |fields| :: QuoteFree(fields[k]) by {
      forall k | 0 <= k < |fields|
        ensures QuoteFree(fields[k])
      {
        if k >= 3 {
          assert fields[k] == Degrees.Render(i.degrees[k - 3]);
          DegreeTextQuoteFree(i.degrees[k - 3]);
        }
      }
    }
    var tail: string := if i.degrees == [] then "," else "";
    assert QuoteFree(tail);
    RenderAsFields(i);
    SplitQuoted(fields, tail);
    OddsInterleave("", fields, tail);
  }
}
