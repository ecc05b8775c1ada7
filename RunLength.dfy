/**
 * What uniqCount computes: the run-length encoding of a list, which
 * collapses every run of adjacent equal items into a pair (item, number of
 * repetitions), and the decoding that undoes it.
 */
module RunLength {
  /** One result entry: the item and how many times it repeats in a row. */
  datatype Run<T> = Run(value: T, count: nat)

  /** count copies of v. */
  function Repeat<T>(v: T, count: nat): (r: seq<T>)
    ensures |r| == count
  {
    if count == 0 then [] else [v] + Repeat(v, count - 1)
  }

  /** Decoding: every entry replaced by count copies of its item. */
  function Expand<T>(runs: seq<Run<T>>): seq<T>
  {
    if runs == [] then [] else Repeat(runs[0].value, runs[0].count) + Expand(runs[1..])
  }

  /** The sum of the counts. */
  function TotalCount<T>(runs: seq<Run<T>>): nat
  {
    if runs == [] then 0 else runs[0].count + TotalCount(runs[1..])
  }

  /** The entry at k holds a different item from the entry before it. */
  predicate DiffersFromPrevious<T(==)>(runs: seq<Run<T>>, k: int)
    requires 0 < k < |runs|
  {
    runs[k - 1].value != runs[k].value
  }

  /** Every count is at least one and adjacent entries hold different items. */
  predicate IsRunEncoding<T(==)>(runs: seq<Run<T>>) {
    (forall k | 0 <= k < |runs| :: runs[k].count >= 1) &&
    (forall k | 0 < k < |runs| :: DiffersFromPrevious(runs, k))
  }

  lemma {:induction false} ExpandAppend<T>(a: seq<Run<T>>, b: seq<Run<T>>)
    ensures Expand(a + b) == Expand(a) + Expand(b)
    decreases |a|
  {
    if a == [] {
      assert a + b == b;
    } else {
      assert (a + b)[1..] == a[1..] + b;
      ExpandAppend(a[1..], b);
    }
  }

  lemma {:induction false} RepeatAt<T>(v: T, count: nat, k: nat)
    requires k < count
    ensures Repeat(v, count)[k] == v
    decreases count
  {
    if k > 0 {
      RepeatAt(v, count - 1, k - 1);
    }
  }

  lemma {:induction false} RepeatSucc<T>(v: T, count: nat)
    ensures Repeat(v, count + 1) == Repeat(v, count) + [v]
    decreases count
  {
    if count > 0 {
      RepeatSucc(v, count - 1);
    }
  }

  lemma ExpandSingle<T>(r: Run<T>)
    ensures Expand([r]) == Repeat(r.value, r.count)
  {
    assert [r][1..] == [];
  }

  /** An entry whose item differs from the last one extends a run encoding. */
  lemma EncodingAppend<T>(runs: seq<Run<T>>, r: Run<T>)
    requires IsRunEncoding(runs) && r.count >= 1
    requires runs == [] || runs[|runs| - 1].value != r.value
    ensures IsRunEncoding(runs + [r])
  {
    var t := runs + [r];
    forall k | 0 <= k < |t|
      ensures t[k].count >= 1
    {
      if k < |runs| {
        assert t[k] == runs[k];
      }
    }
    forall k | 0 < k < |t|
      ensures DiffersFromPrevious(t, k)
    {
      if k < |runs| {
        assert DiffersFromPrevious(runs, k);
        assert t[k - 1] == runs[k - 1] && t[k] == runs[k];
      } else {
        assert t[k - 1] == runs[|runs| - 1];
      }
    }
  }

  /** Dropping the first or the last entry keeps a run encoding. */
  lemma EncodingSlices<T>(runs: seq<Run<T>>)
    requires IsRunEncoding(runs) && runs != []
    ensures IsRunEncoding(runs[1..]) && IsRunEncoding(runs[..|runs| - 1])
  {
    var tail := runs[1..];
    var init := runs[..|runs| - 1];
    forall k | 0 < k < |tail|
      ensures DiffersFromPrevious(tail, k)
    {
      assert DiffersFromPrevious(runs, k + 1);
    }
    forall k | 0 < k < |init|
      ensures DiffersFromPrevious(init, k)
    {
      assert DiffersFromPrevious(runs, k);
    }
  }

  /** Adding one to the count of the last entry appends one more copy of its
      item to the expansion. */
  lemma ExtendLast<T>(prev: seq<Run<T>>, x: T)
    requires IsRunEncoding(prev) && prev != [] && prev[|prev| - 1].value == x
    ensures var last := prev[|prev| - 1];
      var r := prev[..|prev| - 1] + [Run(x, last.count + 1)];
      IsRunEncoding(r) && Expand(r) == Expand(prev) + [x]
  {
    var init := prev[..|prev| - 1];
    var last := prev[|prev| - 1];
    EncodingSlices(prev);
    if init != [] {
      assert DiffersFromPrevious(prev, |prev| - 1);
    }
    EncodingAppend(init, Run(x, last.count + 1));
    assert prev == init + [last];
    ExpandAppend(init, [last]);
    ExpandAppend(init, [Run(x, last.count + 1)]);
    ExpandSingle(last);
    ExpandSingle(Run(x, last.count + 1));
    RepeatSucc(x, last.count);
  }

  /** A new entry with count one appends its item to the expansion. */
  lemma OpenRun<T>(prev: seq<Run<T>>, x: T)
    requires IsRunEncoding(prev) && (prev == [] || prev[|prev| - 1].value != x)
    ensures IsRunEncoding(prev + [Run(x, 1)]) && Expand(prev + [Run(x, 1)]) == Expand(prev) + [x]
  {
    EncodingAppend(prev, Run(x, 1));
    ExpandAppend(prev, [Run(x, 1)]);
    ExpandSingle(Run(x, 1));
    assert Repeat(x, 1) == [x];
  }

  /** One step of uniqCount: an item equal to the item of the last entry
      adds one to that entry's count, any other item opens a new entry. */
  function Push<T(==)>(runs: seq<Run<T>>, x: T): (r: seq<Run<T>>)
    ensures r != [] && r[|r| - 1].value == x
    ensures |r| <= |runs| + 1
  {
    if runs != [] && runs[|runs| - 1].value == x then
      runs[..|runs| - 1] + [Run(x, runs[|runs| - 1].count + 1)]
    else
      runs + [Run(x, 1)]
  }

  /** A step keeps a run encoding and appends its item to the expansion. */
  lemma PushEncodes<T>(runs: seq<Run<T>>, x: T)
    requires IsRunEncoding(runs)
    ensures IsRunEncoding(Push(runs, x)) && Expand(Push(runs, x)) == Expand(runs) + [x]
  {
    if runs != [] && runs[|runs| - 1].value == x {
      ExtendLast(runs, x);
    } else {
      OpenRun(runs, x);
    }
  }

  /** The run-length encoding of s, built from left to right the way
      uniqCount builds it. */
  function RunLengthOf<T(==)>(s: seq<T>): (r: seq<Run<T>>)
    ensures |r| <= |s|
    ensures r == [] <==> s == []
    ensures r != [] ==> r[|r| - 1].value == s[|s| - 1]
  {
    if s == [] then [] else Push(RunLengthOf(s[..|s| - 1]), s[|s| - 1])
  }

  /** Decoding the encoding gives the input back, and no two adjacent
      entries hold the same item. */
  lemma {:induction false} RunLengthEncodes<T>(s: seq<T>)
    ensures IsRunEncoding(RunLengthOf(s)) && Expand(RunLengthOf(s)) == s
    decreases |s|
  {
    if s != [] {
      var init := s[..|s| - 1];
      var x := s[|s| - 1];
      RunLengthEncodes(init);
      PushEncodes(RunLengthOf(init), x);
      assert RunLengthOf(s) == Push(RunLengthOf(init), x);
      assert s == init + [x];
    }
  }

  /** The counts add up to the length of the input. */
  lemma {:induction false} ExpandLength<T>(runs: seq<Run<T>>)
    ensures |Expand(runs)| == TotalCount(runs)
    decreases |runs|
  {
    if runs != [] {
      ExpandLength(runs[1..]);
    }
  }

  lemma CountsSumToLength<T>(s: seq<T>)
    ensures TotalCount(RunLengthOf(s)) == |s|
  {
    RunLengthEncodes(s);
    ExpandLength(RunLengthOf(s));
  }

  /** Only the empty encoding expands to nothing. */
  lemma EmptyExpansion<T>(runs: seq<Run<T>>)
    requires IsRunEncoding(runs)
    ensures Expand(runs) == [] <==> runs == []
  {
    if runs != [] {
      assert |Expand(runs)| >= |Repeat(runs[0].value, runs[0].count)| >= 1;
    }
  }

  /** A run encoding starts with the whole first run of its expansion. */
  lemma FirstRun<T>(runs: seq<Run<T>>, k: nat)
    requires IsRunEncoding(runs) && runs != []
    requires k < |Expand(runs)|
    ensures k < runs[0].count ==> Expand(runs)[k] == runs[0].value
    ensures k == runs[0].count ==> Expand(runs)[k] != runs[0].value
  {
    var rest := runs[1..];
    assert Expand(runs) == Repeat(runs[0].value, runs[0].count) + Expand(rest);
    if k < runs[0].count {
      RepeatAt(runs[0].value, runs[0].count, k);
    }
    if k == runs[0].count {
      assert rest != [];
      assert DiffersFromPrevious(runs, 1);
      assert Expand(rest) == Repeat(rest[0].value, rest[0].count) + Expand(rest[1..]);
      assert Expand(runs)[k] == rest[0].value;
    }
  }

  /** Only one run encoding expands to a given sequence, so uniqCount's
      result is determined by the two properties it is proved to have. */
  lemma {:induction false} RunEncodingUnique<T>(r1: seq<Run<T>>, r2: seq<Run<T>>)
    requires IsRunEncoding(r1) && IsRunEncoding(r2)
    requires Expand(r1) == Expand(r2)
    ensures r1 == r2
    decreases |r1|
  {
    EmptyExpansion(r1);
    EmptyExpansion(r2);
    if r1 != [] {
      var s := Expand(r1);
      assert s == Repeat(r1[0].value, r1[0].count) + Expand(r1[1..]);
      assert s == Repeat(r2[0].value, r2[0].count) + Expand(r2[1..]);
      RepeatAt(r1[0].value, r1[0].count, 0);
      RepeatAt(r2[0].value, r2[0].count, 0);
      assert s[0] == r1[0].value && s[0] == r2[0].value;
      var c1 := r1[0].count;
      var c2 := r2[0].count;
      if c1 < c2 {
        FirstRun(r2, c1);
        FirstRun(r1, c1);
      } else if c2 < c1 {
        FirstRun(r1, c2);
        FirstRun(r2, c2);
      }
      assert c1 == c2;
      assert Expand(r1[1..]) == s[c1..] == Expand(r2[1..]);
      EncodingSlices(r1);
      EncodingSlices(r2);
      RunEncodingUnique(r1[1..], r2[1..]);
      assert r1 == [r1[0]] + r1[1..];
      assert r2 == [r2[0]] + r2[1..];
    }
  }

  /** Any run encoding of s is the encoding uniqCount computes. */
  lemma EncodingIsRunLength<T>(s: seq<T>, runs: seq<Run<T>>)
    requires IsRunEncoding(runs) && Expand(runs) == s
    ensures RunLengthOf(s) == runs
  {
    RunLengthEncodes(s);
    RunEncodingUnique(runs, RunLengthOf(s));
  }
}
