/**
 * readDB: every row of the faculty database becomes an instructor, its
 * fields from the fourth on each parsed as a degree. The first failure
 * (a degree that does not parse, a row with fewer than three fields) ends
 * the whole load, as the exception it raises does.
 */
module Loader {
  import opened Wrappers
  import opened Degrees
  import opened Instructors

  /** Why a load stops: a degree field that Degree() refuses, or a row too
      short to hold a name, a department and a title. */
  datatype LoadError = DegreeError(error: ParseError) | ShortRow(width: nat)

  /** f applied to every element from left to right; the first error stops
      the walk and is the result. */
  function Collect<A, B, E>(f: A -> Result<B, E>, xs: seq<A>): (r: Result<seq<B>, E>)
    ensures r.Ok? ==> |r.value| == |xs| && forall k | 0 <= k < |xs| :: f(xs[k]) == Ok(r.value[k])
    decreases |xs|
  {
    if xs == [] then Ok([])
    else
      match Collect(f, xs[..|xs| - 1])
      case Err(e) => Err(e)
      case Ok(done) =>
        match f(xs[|xs| - 1])
        case Err(e) => Err(e)
        case Ok(y) => Ok(done + [y])
  }

  /** The walk succeeds exactly when every element converts. */
  lemma {:induction false} CollectOk<A, B, E>(f: A -> Result<B, E>, xs: seq<A>)
    ensures Collect(f, xs).Ok? <==> forall k | 0 <= k < |xs| :: f(xs[k]).Ok?
    decreases |xs|
  {
    if xs != [] {
      var init := xs[..|xs| - 1];
      CollectOk(f, init);
      if Collect(f, init).Ok? && f(xs[|xs| - 1]).Ok? {
        forall k | 0 <= k < |xs| ensures f(xs[k]).Ok? {
          if k < |init| {
            assert xs[k] == init[k];
          }
        }
      } else if Collect(f, init).Err? {
        var k :| 0 <= k < |init| && f(init[k]).Err?;
        assert xs[k] == init[k];
      }
    }
  }

  /** The error is the one of the first element that does not convert. */
  lemma {:induction false} CollectFirstError<A, B, E>(f: A -> Result<B, E>, xs: seq<A>, j: nat)
    requires j < |xs| && f(xs[j]).Err?
    requires forall k | 0 <= k < j :: f(xs[k]).Ok?
    ensures Collect(f, xs) == Err(f(xs[j]).error)
    decreases |xs|
  {
    var init := xs[..|xs| - 1];
    if j == |xs| - 1 {
      CollectOk(f, init);
      assert forall k | 0 <= k < |init| :: f(init[k]).Ok? by {
        forall k | 0 <= k < |init| ensures f(init[k]).Ok? {
          assert init[k] == xs[k];
        }
      }
    } else {
      assert init[j] == xs[j];
      forall k | 0 <= k < j ensures f(init[k]).Ok? {
        assert init[k] == xs[k];
      }
      CollectFirstError(f, init, j);
    }
  }

  /** Once a prefix fails, the whole walk fails with the same error. */
  lemma {:induction false} CollectErrPersists<A, B, E>(f: A -> Result<B, E>, xs: seq<A>, n: nat)
    requires n <= |xs| && Collect(f, xs[..n]).Err?
    ensures Collect(f, xs) == Collect(f, xs[..n])
    decreases |xs|
  {
    if n < |xs| {
      var init := xs[..|xs| - 1];
      assert init[..n] == xs[..n];
      CollectErrPersists(f, init, n);
    } else {
      assert xs[..n] == xs;
    }
  }

  /** When every element converts to the matching value, the walk gives
      exactly those values. */
  lemma {:induction false} CollectAll<A, B, E>(f: A -> Result<B, E>, xs: seq<A>, ys: seq<B>)
    requires |xs| == |ys| && forall k | 0 <= k < |xs| :: f(xs[k]) == Ok(ys[k])
    ensures Collect(f, xs) == Ok(ys)
    decreases |xs|
  {
    if xs != [] {
      var n := |xs| - 1;
      assert forall k | 0 <= k < n :: f(xs[..n][k]) == Ok(ys[..n][k]) by {
        forall k | 0 <= k < n ensures f(xs[..n][k]) == Ok(ys[..n][k]) {
          assert xs[..n][k] == xs[k] && ys[..n][k] == ys[k];
        }
      }
      CollectAll(f, xs[..n], ys[..n]);
      assert f(xs[n]) == Ok(ys[n]);
      assert ys == ys[..n] + [ys[n]];
    }
  }

  /** One more element that converts extends the result by its value. */
  lemma CollectSnoc<A, B, E>(f: A -> Result<B, E>, xs: seq<A>, n: nat)
    requires n < |xs| && Collect(f, xs[..n]).Ok?
    ensures Collect(f, xs[..n + 1]) ==
      match f(xs[n])
      case Err(e) => Err(e)
      case Ok(y) => Ok(Collect(f, xs[..n]).value + [y])
  {
    assert xs[..n + 1][..n] == xs[..n];
  }

  /** The fields of a row from the fourth on; none when the row is shorter. */
  function DegreeFields(row: seq<string>): (r: seq<string>)
    ensures |row| >= 3 ==> |r| == |row| - 3 && forall k | 0 <= k < |r| :: r[k] == row[k + 3]
    ensures |row| <= 3 ==> r == []
  {
    if |row| >= 3 then row[3..] else []
  }

  /** The degrees of a row: Degree(field) for each field from the fourth on. */
  function ParseDegrees(row: seq<string>): Result<seq<Degree>, ParseError> {
    Collect(Parse, DegreeFields(row))
  }

  /** One row: its degrees are parsed first, then Instructor(row[0], row[1],
      row[2], degrees) is built, which needs at least three fields. */
  function AssembleRow(row: seq<string>): (r: Result<Instructor, LoadError>)
    ensures r.Ok? ==> |row| >= 3 && r.value == Create(row[0], row[1], row[2], r.value.degrees)
    ensures r.Ok? ==> |r.value.degrees| == |row| - 3
    ensures r.Ok? ==> forall k | 0 <= k < |r.value.degrees| :: Parse(row[k + 3]) == Ok(r.value.degrees[k])
    ensures r == Err(ShortRow(|row|)) <==> |row| < 3
  {
    match ParseDegrees(row)
    case Err(e) => Err(DegreeError(e))
    case Ok(degs) =>
      if |row| < 3 then Err(ShortRow(|row|))
      else Ok(Create(row[0], row[1], row[2], degs))
  }

  /** A row of at least three fields is refused exactly when one of its
      degree fields is, with the error of the first one. */
  lemma AssembleRowError(row: seq<string>, j: nat)
    requires |row| >= 3 && 3 <= j < |row| && Parse(row[j]).Err?
    requires forall k | 3 <= k < j :: Parse(row[k]).Ok?
    ensures AssembleRow(row) == Err(DegreeError(Parse(row[j]).error))
  {
    var fields := DegreeFields(row);
    forall k | 0 <= k < j - 3 ensures Parse(fields[k]).Ok? {
      assert fields[k] == row[k + 3];
    }
    CollectFirstError(Parse, fields, j - 3);
  }

  /** A row of at least three fields whose degree fields all parse is
      accepted. */
  lemma AssembleRowOk(row: seq<string>)
    requires |row| >= 3 && forall k | 3 <= k < |row| :: Parse(row[k]).Ok?
    ensures AssembleRow(row).Ok?
  {
    var fields := DegreeFields(row);
    forall k | 0 <= k < |fields| ensures Parse(fields[k]).Ok? {
      assert fields[k] == row[k + 3];
    }
    CollectOk(Parse, fields);
  }

  /** readDB on the rows of the file, as a value: the instructors in row
      order, or the first error. */
  function Load(rows: seq<seq<string>>): (r: Result<seq<Instructor>, LoadError>)
    ensures r.Ok? ==> |r.value| == |rows|
    ensures r.Ok? ==> forall k | 0 <= k < |rows| :: AssembleRow(rows[k]) == Ok(r.value[k])
  {
    Collect(AssembleRow, rows)
  }

  /** The load fails exactly when one of the rows is refused, and then with
      the error of the first such row. */
  lemma LoadFails(rows: seq<seq<string>>, j: nat)
    requires j < |rows| && AssembleRow(rows[j]).Err?
    requires forall k | 0 <= k < j :: AssembleRow(rows[k]).Ok?
    ensures Load(rows) == Err(AssembleRow(rows[j]).error)
  {
    CollectFirstError(AssembleRow, rows, j);
  }

  lemma LoadSucceeds(rows: seq<seq<string>>)
    ensures Load(rows).Ok? <==> forall k | 0 <= k < |rows| :: AssembleRow(rows[k]).Ok?
  {
    CollectOk(AssembleRow, rows);
  }

  /** readDB over rows already read from the file: the outer loop builds
      one instructor per row, the inner loop parses the row's degrees. */
  method ReadDB(rows: seq<seq<string>>) returns (result: Result<seq<Instructor>, LoadError>)
    ensures result == Load(rows)
  {
    var instructors: seq<Instructor> := [];
    for r := 0 to |rows|
      invariant Load(rows[..r]) == Ok(instructors)
    {
      var row := rows[r];
      var fields := DegreeFields(row);
      var degs: seq<Degree> := [];
      for k := 0 to |fields|
        invariant Collect(Parse, fields[..k]) == Ok(degs)
      {
        var d := Parse(fields[k]);
        CollectSnoc(Parse, fields, k);
        if d.Err? {
          CollectErrPersists(Parse, fields, k + 1);
          CollectSnoc(AssembleRow, rows, r);
          CollectErrPersists(AssembleRow, rows, r + 1);
          return Err(DegreeError(d.error));
        }
        degs := degs + [d.value];
      }
      assert fields[..|fields|] == fields;
      CollectSnoc(AssembleRow, rows, r);
      if |row| < 3 {
        CollectErrPersists(AssembleRow, rows, r + 1);
        return Err(ShortRow(|row|));
      }
      instructors := instructors + [Create(row[0], row[1], row[2], degs)];
    }
    assert rows[..|rows|] == rows;
    return Ok(instructors);
  }

  /** The degrees of an instructor read back from their descriptions. */
  lemma ParseDegreeTexts(ds: seq<Degree>)
    requires forall k | 0 <= k < |ds| :: WellFormed(ds[k])
    ensures Collect(Parse, DegreeTexts(ds)) == Ok(ds)
  {
    var texts := DegreeTexts(ds);
    forall k | 0 <= k < |texts| ensures Parse(texts[k]) == Ok(ds[k]) {
      RenderRoundTrip(ds[k]);
    }
    CollectAll(Parse, texts, ds);
  }

  /** The quoted fields of str(i), taken as a row, give i back when its texts
      are stripped, nothing holds a double quote and every degree is one
      Degree() could have produced. */
  lemma ReadBackRendered(i: Instructor)
    requires Stripped(i) && InstructorQuoteFree(i)
    requires forall k | 0 <= k < |i.degrees| :: WellFormed(i.degrees[k])
    ensures AssembleRow(QuotedFields(Instructors.Render(i))) == Ok(i)
  {
    var row := QuotedFields(Instructors.Render(i));
    RenderQuotedFields(i);
    assert row == [i.name, i.dept, i.title] + DegreeTexts(i.degrees);
    assert DegreeFields(row) == DegreeTexts(i.degrees);
    ParseDegreeTexts(i.degrees);
    CreateIdempotent(i);
  }

  /** Reading the rendered lines of several instructors gives them all back,
      in order. */
  lemma LoadRendered(staff: seq<Instructor>)
    requires forall k | 0 <= k < |staff| :: Stripped(staff[k]) && InstructorQuoteFree(staff[k])
    requires forall k | 0 <= k < |staff| :: forall m | 0 <= m < |staff[k].degrees| :: WellFormed(staff[k].degrees[m])
    ensures Load(seq(|staff|, k requires 0 <= k < |staff| => QuotedFields(Instructors.Render(staff[k])))) == Ok(staff)
  {
    var rows := seq(|staff|, k requires 0 <= k < |staff| => QuotedFields(Instructors.Render(staff[k])));
    forall k | 0 <= k < |rows| ensures AssembleRow(rows[k]) == Ok(staff[k]) {
      ReadBackRendered(staff[k]);
    }
    CollectAll(AssembleRow, rows, staff);
  }
}
