/**
 * A degree held by an instructor: the year it was granted, its kind
 * ("Ph.D.", "M.A.", ...) and the granting institution. A Degree is built
 * by parsing a description such as "2020, Ph.D., Cornell University" and is
 * never changed afterwards.
 */
module Degrees {
  import opened Wrappers
  import opened Text

  datatype Degree = Degree(year: int, kind: string, institution: string)

  /** Why a description is not a degree: int() refused the first field
      (Python's ValueError), or the field at this index does not exist
      (Python's IndexError). */
  datatype ParseError = BadYear(text: string) | MissingField(index: nat)

  /** What parsing produces: kind and institution hold no comma and carry
      no surrounding whitespace. */
  predicate WellFormed(d: Degree) {
    ',' !in d.kind && ',' !in d.institution && IsTrimmed(d.kind) && IsTrimmed(d.institution)
  }

  /** Degree(info): split the description on every comma; the first field
      is the year, the second and third, stripped, are the kind and the
      institution; any further field is ignored. The year is converted
      before the other two fields are looked up. */
  function Parse(info: string): (r: Result<Degree, ParseError>)
    ensures r.Ok? ==> WellFormed(r.value)
  {
    var fields := Split(info, ',');
    match ParseInt(fields[0])
    case None => Err(BadYear(fields[0]))
    case Some(year) =>
      if |fields| < 2 then Err(MissingField(1))
      else if |fields| < 3 then Err(MissingField(2))
      else
        Ok(Degree(year, Trim(fields[1]), Trim(fields[2])))
  }

  /** Parsing fails exactly when int() refuses the first field or there
      are fewer than three fields. */
  lemma ParseFailsWhen(info: string)
    ensures var fields := Split(info, ',');
      Parse(info).Err? <==> ParseInt(fields[0]).None? || |fields| < 3
  {
  }

  /** A bachelor's degree: the kind starts or ends with "B.". */
  function IsBac(d: Degree): (b: bool)
    ensures b <==> (|d.kind| >= 2 && d.kind[0] == 'B' && d.kind[1] == '.') ||
                   (|d.kind| >= 2 && d.kind[|d.kind| - 2] == 'B' && d.kind[|d.kind| - 1] == '.')
  {
    StartsWith(d.kind, "B.") || EndsWith(d.kind, "B.")
  }

  /** A doctorate: the kind starts with "D" or ends with "D.". */
  function IsDoc(d: Degree): (b: bool)
    ensures b <==> (|d.kind| >= 1 && d.kind[0] == 'D') ||
                   (|d.kind| >= 2 && d.kind[|d.kind| - 2] == 'D' && d.kind[|d.kind| - 1] == '.')
  {
    StartsWith(d.kind, "D") || EndsWith(d.kind, "D.")
  }

  /** A master's degree: anything that is neither of the other two. Its kind
      does not start with "D" and does not end with "B." or "D.". */
  function IsMas(d: Degree): (b: bool)
    ensures b ==> d.kind == [] || d.kind[0] != 'D'
    ensures b ==> !(|d.kind| >= 2 && d.kind[|d.kind| - 1] == '.' && (d.kind[|d.kind| - 2] == 'B' || d.kind[|d.kind| - 2] == 'D'))
  {
    !(IsBac(d) || IsDoc(d))
  }

  /** Every degree is at some level, and a master's degree is at no other. */
  lemma LevelsCover(d: Degree)
    ensures IsBac(d) || IsMas(d) || IsDoc(d)
    ensures IsMas(d) ==> !IsBac(d) && !IsDoc(d)
  {
  }

  /** Exactly one predicate holds unless the kind matches both the bachelor
      and the doctorate pattern. */
  lemma ExactlyOneUnlessOverlap(d: Degree)
    requires !(IsBac(d) && IsDoc(d))
    ensures (if IsBac(d) then 1 else 0) + (if IsMas(d) then 1 else 0) + (if IsDoc(d) then 1 else 0) == 1
  {
  }

  /** Degree equality: year, kind and institution all agree. */
  function DegreeEq(a: Degree, b: Degree): (r: bool)
    ensures r <==> a == b
  {
    a.year == b.year && a.kind == b.kind && a.institution == b.institution
  }

  /** str(d): "year, kind, institution". */
  function Render(d: Degree): (r: string)
    ensures StartsWith(r, IntToString(d.year)) && EndsWith(r, d.institution)
  {
    IntToString(d.year) + ", " + d.kind + ", " + d.institution
  }

  /** repr(d): the constructor call that rebuilds d. */
  function Repr(d: Degree): (r: string)
    ensures |r| >= 10 && r[..8] == "Degree(\"" && r[|r| - 2..] == "\")" && r[8..|r| - 2] == Render(d)
  {
    Unwrap("Degree(\"", Render(d), "\")");
    "Degree(\"" + Render(d) + "\")"
  }

  lemma StripLeadingSpace(s: string)
    requires IsTrimmed(s)
    ensures Trim(" " + s) == s
  {
    TrimPadded(" ", s, []);
    assert " " + s + [] == " " + s;
  }

  /** A description is three comma-separated fields, the last two each
      preceded by a space. */
  lemma DescriptionShape(year: string, kind: string, inst: string)
    ensures year + ", " + kind + ", " + inst == year + [','] + ((" " + kind) + [','] + (" " + inst))
  {
    assert ", " == [','] + " ";
    calc {
      year + ", " + kind + ", " + inst;
      year + ([','] + " ") + kind + ([','] + " ") + inst;
      year + [','] + (" " + kind) + [','] + (" " + inst);
    }
  }

  /** "year, kind, inst" parses field by field. */
  lemma ParseDescription(year: string, n: int, kind: string, inst: string)
    requires ',' !in year && ',' !in kind && ',' !in inst && IsTrimmed(kind) && IsTrimmed(inst)
    requires ParseInt(year) == Some(n)
    ensures Parse(year + ", " + kind + ", " + inst) == Ok(Degree(n, kind, inst))
  {
    var k := " " + kind;
    var i := " " + inst;
    DescriptionShape(year, kind, inst);
    SplitCons(year, ',', k + [','] + i);
    SplitCons(k, ',', i);
    assert Split(i, ',') == [i];
    StripLeadingSpace(kind);
    StripLeadingSpace(inst);
  }

  /** Parsing the rendering of a well-formed degree gives that degree back. */
  lemma RenderRoundTrip(d: Degree)
    requires WellFormed(d)
    ensures Parse(Render(d)) == Ok(d)
  {
    var y := IntToString(d.year);
    assert ',' !in y by {
      forall k | 0 <= k < |y| ensures y[k] != ',' { }
    }
    ParseDescription(y, d.year, d.kind, d.institution);
  }

  /** Any degree obtained by parsing renders to a description that parses
      to an equal degree. */
  lemma ReparseRendered(info: string)
    requires Parse(info).Ok?
    ensures Parse(Render(Parse(info).value)) == Parse(info)
  {
    RenderRoundTrip(Parse(info).value);
  }

  lemma Unwrap(prefix: string, body: string, suffix: string)
    ensures var w := prefix + body + suffix;
      w[..|prefix|] == prefix && w[|w| - |suffix|..] == suffix && w[|prefix|..|w| - |suffix|] == body
  {
  }

  /** repr(d) wraps str(d) in Degree("..."), so the argument it shows parses
      back to d. */
  lemma ReprRoundTrip(d: Degree)
    requires WellFormed(d)
    ensures var r := Repr(d);
      |r| >= 10 && r[..8] == "Degree(\"" && r[|r| - 2..] == "\")" && Parse(r[8..|r| - 2]) == Ok(d)
  {
    RenderRoundTrip(d);
  }

  /** The fields of year,kind,inst followed by anything. */
  lemma SplitThree(year: string, kind: string, inst: string, tail: seq<string>, s: string)
    requires ',' !in year && ',' !in kind
    requires Split(s, ',') == tail
    ensures Split(year + [','] + (kind + [','] + s), ',') == [year, kind] + tail
  {
    SplitCons(year, ',', kind + [','] + s);
    SplitCons(kind, ',', s);
  }

  /** Fields after the third are dropped: the description is split on every
      comma and only the first three fields are read. */
  lemma ParseIgnoresExtraFields(year: string, kind: string, inst: string, extra: string)
    requires ',' !in year && ',' !in kind && ',' !in inst
    ensures Parse(year + "," + kind + "," + inst + "," + extra) == Parse(year + "," + kind + "," + inst)
  {
    var long := year + "," + kind + "," + inst + "," + extra;
    var short := year + "," + kind + "," + inst;
    assert long == year + [','] + (kind + [','] + (inst + [','] + extra));
    assert short == year + [','] + (kind + [','] + inst);
    SplitCons(inst, ',', extra);
    SplitThree(year, kind, inst, [inst] + Split(extra, ','), inst + [','] + extra);
    assert Split(inst, ',') == [inst];
    SplitThree(year, kind, inst, [inst], inst);
    assert Split(long, ',')[..3] == Split(short, ',');
  }

  /** Three comma-separated fields, however they are padded: the year is
      int() of the first, the kind and the institution are the second and
      third with the surrounding whitespace stripped. */
  lemma ParseFields(year: string, n: int, kind: string, inst: string)
    requires ',' !in year && ',' !in kind && ',' !in inst && ParseInt(year) == Some(n)
    ensures Parse(year + "," + kind + "," + inst) == Ok(Degree(n, Trim(kind), Trim(inst)))
  {
    assert year + "," + kind + "," + inst == year + [','] + (kind + [','] + inst);
    assert Split(inst, ',') == [inst];
    SplitThree(year, kind, inst, [inst], inst);
  }

  /** int() of the first field is evaluated before the second and third
      fields are looked up: a bad year is reported even when fields are
      missing, and a missing field only when the year is an integer. */
  lemma ParseErrorOrder(info: string)
    ensures var f := Split(info, ',');
      (ParseInt(f[0]).None? ==> Parse(info) == Err(BadYear(f[0]))) &&
      (ParseInt(f[0]).Some? && |f| < 3 ==> Parse(info) == Err(MissingField(|f|)))
  {
  }

  /** A description with fewer than two commas is not a degree. */
  lemma ParseNeedsThreeFields(year: string, rest: string)
    requires ',' !in year && ',' !in rest
    ensures Parse(year).Err? && Parse(year + "," + rest).Err?
  {
    assert Split(year, ',') == [year];
    assert year + "," + rest == year + [','] + rest;
    SplitCons(year, ',', rest);
    assert Split(rest, ',') == [rest];
  }

  /** int() of a four-digit year. */
  lemma YearValue(a: char, b: char, c: char, d: char)
    requires IsDigit(a) && IsDigit(b) && IsDigit(c) && IsDigit(d)
    ensures ParseInt([a, b, c, d]) == Some(1000 * DigitValue(a) + 100 * DigitValue(b) + 10 * DigitValue(c) + DigitValue(d))
  {
    assert [a][..0] == [];
    assert DigitsValue([a]) == DigitValue(a);
    assert [a, b][..1] == [a];
    assert DigitsValue([a, b]) == DigitsValue([a]) * 10 + DigitValue(b);
    assert [a, b, c][..2] == [a, b];
    assert DigitsValue([a, b, c]) == DigitsValue([a, b]) * 10 + DigitValue(c);
    assert [a, b, c, d][..3] == [a, b, c];
    assert DigitsValue([a, b, c, d]) == DigitsValue([a, b, c]) * 10 + DigitValue(d);
    ParseUnsigned([a, b, c, d]);
  }

  /** A description with a four-digit year parses to the degree it describes. */
  lemma ParseWithYear(info: string, a: char, b: char, c: char, d: char, kind: string, inst: string)
    requires IsDigit(a) && IsDigit(b) && IsDigit(c) && IsDigit(d)
    requires ',' !in kind && ',' !in inst && IsTrimmed(kind) && IsTrimmed(inst)
    requires info == [a, b, c, d] + ", " + kind + ", " + inst
    ensures Parse(info) == Ok(Degree(1000 * DigitValue(a) + 100 * DigitValue(b) + 10 * DigitValue(c) + DigitValue(d), kind, inst))
  {
    var year := [a, b, c, d];
    var n := 1000 * DigitValue(a) + 100 * DigitValue(b) + 10 * DigitValue(c) + DigitValue(d);
    assert ',' !in year;
    YearValue(a, b, c, d);
    ParseDescription(year, n, kind, inst);
  }

  /** The doctorate of the module's documentation parses as documented, for
      a year field that int() reads as n (for instance "2020", see YearValue). */
  lemma DocumentedDoctorate(year: string, n: int)
    requires ',' !in year && ParseInt(year) == Some(n)
    ensures Parse(year + ", " + "Ph.D." + ", " + "Cornell University") == Ok(Degree(n, "Ph.D.", "Cornell University"))
  {
    ParseDescription(year, n, "Ph.D.", "Cornell University");
  }

  /** The master's degree of the module's documentation. */
  lemma DocumentedMaster(year: string, n: int)
    requires ',' !in year && ParseInt(year) == Some(n)
    ensures Parse(year + ", " + "M.A." + ", " + "McGill University") == Ok(Degree(n, "M.A.", "McGill University"))
    ensures IsMas(Degree(n, "M.A.", "McGill University"))
  {
    var kind, inst := "M.A.", "McGill University";
    assert kind[0] == 'M' && kind[|kind| - 1] == '.' && ',' !in kind;
    assert inst[0] == 'M' && inst[|inst| - 1] == 'y' && ',' !in inst;
    ParseDescription(year, n, kind, inst);
    DocumentedLevels(n, inst);
  }

  /** The institution of the documented bachelor's degree is a field. */
  lemma BachelorInstitution()
    ensures ',' !in "Massachusetts Institute of Technology" && IsTrimmed("Massachusetts Institute of Technology")
  {
    var inst := "Massachusetts Institute of Technology";
    assert inst[0] == 'M' && inst[|inst| - 1] == 'y';
  }

  /** The bachelor's degree of the module's documentation. */
  lemma DocumentedBachelor(year: string, n: int)
    requires ',' !in year && ParseInt(year) == Some(n)
    ensures Parse(year + ", " + "B.S." + ", " + "Massachusetts Institute of Technology") == Ok(Degree(n, "B.S.", "Massachusetts Institute of Technology"))
  {
    BachelorInstitution();
    ParseDescription(year, n, "B.S.", "Massachusetts Institute of Technology");
  }

  /** ... and are classified as a doctorate, a master's and a bachelor's degree. */
  lemma DocumentedLevels(year: int, inst: string)
    ensures IsDoc(Degree(year, "Ph.D.", inst)) && !IsBac(Degree(year, "Ph.D.", inst))
    ensures IsMas(Degree(year, "M.A.", inst))
    ensures IsBac(Degree(year, "B.S.", inst)) && !IsDoc(Degree(year, "B.S.", inst))
  {
    var p := "Ph.D.";
    assert p[..2][0] == 'P' && p[3..][0] == 'D';
    var m := "M.A.";
    assert m[..2][0] == 'M' && m[2..][0] == 'A' && m[..1][0] == 'M';
    var b := "B.S.";
    assert b[..1][0] == 'B' && b[2..][0] == 'S';
  }

  /** The module's documentation says exactly one of the three predicates
      holds, but a Bachelor of Divinity ("B.D.") is both a bachelor's
      degree and a doctorate. */
  lemma BachelorOfDivinityOverlap(year: string, n: int, inst: string)
    requires ',' !in year && ParseInt(year) == Some(n)
    requires ',' !in inst && IsTrimmed(inst)
    ensures Parse(year + ", " + "B.D." + ", " + inst) == Ok(Degree(n, "B.D.", inst))
    ensures IsBac(Degree(n, "B.D.", inst)) && IsDoc(Degree(n, "B.D.", inst))
  {
    ParseDescription(year, n, "B.D.", inst);
    var k := "B.D.";
    assert k[..2] == "B." && k[2..] == "D.";
  }

  /** The three levels as one value. */
  datatype Level = Bachelor | Master | Doctorate

  /** The classification the documentation describes: exactly one level per
      degree, the bachelor pattern taking precedence over the doctorate
      pattern. It agrees with IsBac, IsMas and IsDoc wherever those do not
      overlap. */
  function Classify(d: Degree): (l: Level)
    ensures l == Bachelor <==> IsBac(d)
    ensures l == Master <==> IsMas(d)
    ensures !(IsBac(d) && IsDoc(d)) ==> (l == Doctorate <==> IsDoc(d))
  {
    if IsBac(d) then Bachelor else if IsDoc(d) then Doctorate else Master
  }
}
