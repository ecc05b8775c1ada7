/**
 * uniqCount: one pass over a list that collapses every run of adjacent equal
 * items into a pair (item, number of repetitions). Despite its name it does
 * not remove duplicates that are not adjacent: it is run-length encoding.
 */
module Uniq {
  import opened Wrappers
  import opened RunLength

  /** uniqCount(itemList). The Python code keeps the entries in a list whose
      last entry's count it increments in place, and remembers the previous
      item in lastValue, which starts out as None so that the first item
      always opens an entry. */
  method UniqCount<T(==)>(items: seq<T>) returns (results: seq<Run<T>>)
    ensures IsRunEncoding(results) && Expand(results) == items
    ensures results == RunLengthOf(items)
  {
    results := [];
    var lastValue: Option<T> := None;
    for i := 0 to |items|
      invariant IsRunEncoding(results) && Expand(results) == items[..i]
      invariant i == 0 ==> lastValue == None && results == []
      invariant i > 0 ==> lastValue == Some(items[i - 1]) && results != [] && results[|results| - 1].value == items[i - 1]
    {
      var x := items[i];
      PushEncodes(results, x);
      ghost var next := Push(results, x);
      if lastValue == Some(x) {
        var last := results[|results| - 1];
        results := results[..|results| - 1] + [Run(last.value, last.count + 1)];
      } else {
        results := results + [Run(x, 1)];
      }
      assert results == next;
      lastValue := Some(x);
      assert items[..i + 1] == items[..i] + [x];
    }
    assert items[..|items|] == items;
    EncodingIsRunLength(items, results);
  }

  /** The short examples in uniqCount's documentation. */
  lemma DocumentedShortExamples()
    ensures RunLengthOf<int>([]) == []
    ensures RunLengthOf([5]) == [Run(5, 1)]
  {
  }

  lemma ShortRepeats<T>(v: T)
    ensures Repeat(v, 1) == [v] && Repeat(v, 2) == [v, v] && Repeat(v, 3) == [v, v, v]
  {
    RepeatSucc(v, 0);
    RepeatSucc(v, 1);
    RepeatSucc(v, 2);
  }

  /** Three runs of adjacent equal items, as in the documented
      [1,1,1,2,2,-3,-3,-3], which gives [[1,3],[2,2],[-3,3]]. */
  lemma DocumentedRuns<T>(a: T, b: T, c: T)
    requires a != b && b != c
    ensures RunLengthOf([a, a, a, b, b, c, c, c]) == [Run(a, 3), Run(b, 2), Run(c, 3)]
  {
    var runs := [Run(a, 3), Run(b, 2), Run(c, 3)];
    var s := [a, a, a, b, b, c, c, c];
    assert DiffersFromPrevious(runs, 1) && DiffersFromPrevious(runs, 2);
    ExpandRuns(a, b, c);
    EncodingIsRunLength(s, runs);
  }

  lemma ExpandRuns<T>(a: T, b: T, c: T)
    ensures Expand([Run(a, 3), Run(b, 2), Run(c, 3)]) == [a, a, a, b, b, c, c, c]
  {
    ExpandAppend([Run(a, 3)], [Run(b, 2), Run(c, 3)]);
    ExpandAppend([Run(b, 2)], [Run(c, 3)]);
    ExpandSingle(Run(a, 3));
    ExpandSingle(Run(b, 2));
    ExpandSingle(Run(c, 3));
    ShortRepeats(a);
    ShortRepeats(b);
    ShortRepeats(c);
  }

  /** The same for the documented list of names
      ['Amy','Amy','Bob','Bob','Bob','Calvin'], which gives
      [['Amy',2],['Bob',3],['Calvin',1]]. */
  lemma DocumentedNames<T>(a: T, b: T, c: T)
    requires a != b && b != c
    ensures RunLengthOf([a, a, b, b, b, c]) == [Run(a, 2), Run(b, 3), Run(c, 1)]
  {
    var runs := [Run(a, 2), Run(b, 3), Run(c, 1)];
    var s := [a, a, b, b, b, c];
    assert DiffersFromPrevious(runs, 1) && DiffersFromPrevious(runs, 2);
    ExpandNames(a, b, c);
    EncodingIsRunLength(s, runs);
  }

  lemma ExpandNames<T>(a: T, b: T, c: T)
    ensures Expand([Run(a, 2), Run(b, 3), Run(c, 1)]) == [a, a, b, b, b, c]
  {
    ExpandAppend([Run(a, 2)], [Run(b, 3), Run(c, 1)]);
    ExpandAppend([Run(b, 3)], [Run(c, 1)]);
    ExpandSingle(Run(a, 2));
    ExpandSingle(Run(b, 3));
    ExpandSingle(Run(c, 1));
    ShortRepeats(a);
    ShortRepeats(b);
    ShortRepeats(c);
  }

  /** Equal items that are not adjacent stay in separate entries, as in the
      documented [1,1,2,-3,-3,-3,1,2], which gives
      [[1,2],[2,1],[-3,3],[1,1],[2,1]]. */
  lemma DocumentedSeparateRuns<T>(a: T, b: T, c: T)
    requires a != b && b != c && c != a
    ensures RunLengthOf([a, a, b, c, c, c, a, b]) == [Run(a, 2), Run(b, 1), Run(c, 3), Run(a, 1), Run(b, 1)]
  {
    var runs := [Run(a, 2), Run(b, 1), Run(c, 3), Run(a, 1), Run(b, 1)];
    var s := [a, a, b, c, c, c, a, b];
    assert DiffersFromPrevious(runs, 1) && DiffersFromPrevious(runs, 2);
    assert DiffersFromPrevious(runs, 3) && DiffersFromPrevious(runs, 4);
    ExpandSeparateRuns(a, b, c);
    EncodingIsRunLength(s, runs);
  }

  lemma ExpandSeparateRuns<T>(a: T, b: T, c: T)
    ensures Expand([Run(a, 2), Run(b, 1), Run(c, 3), Run(a, 1), Run(b, 1)]) == [a, a, b, c, c, c, a, b]
  {
    var tail := [Run(a, 1), Run(b, 1)];
    ExpandAppend([Run(a, 1)], [Run(b, 1)]);
    ExpandSingle(Run(a, 1));
    ExpandSingle(Run(b, 1));
    ShortRepeats(a);
    ShortRepeats(b);
    assert Expand(tail) == [a, b];
    ExpandAppend([Run(a, 2), Run(b, 1), Run(c, 3)], tail);
    assert [Run(a, 2), Run(b, 1), Run(c, 3)] + tail == [Run(a, 2), Run(b, 1), Run(c, 3), Run(a, 1), Run(b, 1)];
    ExpandThreeRuns(a, b, c);
  }

  lemma ExpandThreeRuns<T>(a: T, b: T, c: T)
    ensures Expand([Run(a, 2), Run(b, 1), Run(c, 3)]) == [a, a, b, c, c, c]
  {
    ExpandAppend([Run(a, 2)], [Run(b, 1), Run(c, 3)]);
    ExpandAppend([Run(b, 1)], [Run(c, 3)]);
    ExpandSingle(Run(a, 2));
    ExpandSingle(Run(b, 1));
    ExpandSingle(Run(c, 3));
    ShortRepeats(a);
    ShortRepeats(b);
    ShortRepeats(c);
  }
}
