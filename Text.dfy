/**
 * The Python string built-ins the faculty database relies on, restricted to
 * ASCII text: str.strip(), str.split(sep), str.join, str.startswith,
 * str.endswith, int(s) and str(n).
 */
module Text {
  import opened Wrappers

  // ---------------------------------------------------------------------------
  // Whitespace and str.strip()

  /** Python's str.isspace() on the ASCII range: \t \n \v \f \r, the four
      information separators U+001C..U+001F, and the space. */
  predicate IsSpace(c: char) {
    var n := c as int;
    n == 32 || 9 <= n <= 13 || 28 <= n <= 31
  }

  predicate AllSpace(s: string) {
    forall k | 0 <= k < |s| :: IsSpace(s[k])
  }

  /** Neither starts nor ends with whitespace. */
  predicate IsTrimmed(s: string) {
    s == [] || (!IsSpace(s[0]) && !IsSpace(s[|s| - 1]))
  }

  /** r occurs in s at position i with nothing but whitespace before and
      after it. */
  ghost predicate PaddedAt(r: string, s: string, i: int) {
    0 <= i && i + |r| <= |s| &&
    (forall k | 0 <= k < |r| :: r[k] == s[i + k]) &&
    (forall k | 0 <= k < i :: IsSpace(s[k])) &&
    (forall k | i + |r| <= k < |s| :: IsSpace(s[k]))
  }

  /** r is s with its leading and trailing whitespace removed. */
  ghost predicate IsStrippingOf(r: string, s: string) {
    IsTrimmed(r) && exists i :: PaddedAt(r, s, i)
  }

  /** Python's s.strip(). */
  function Trim(s: string): (r: string)
    ensures IsTrimmed(r) && |r| <= |s|
    ensures forall c | c in r :: c in s
    decreases |s|
  {
    if s != [] && IsSpace(s[0]) then Trim(s[1..])
    else if s != [] && IsSpace(s[|s| - 1]) then Trim(s[..|s| - 1])
    else s
  }

  /** Trim removes exactly the surrounding whitespace. */
  lemma {:induction false} TrimIsStripping(s: string)
    ensures IsStrippingOf(Trim(s), s)
    decreases |s|
  {
    var r := Trim(s);
    if s != [] && IsSpace(s[0]) {
      TrimIsStripping(s[1..]);
      var i :| PaddedAt(r, s[1..], i);
      assert PaddedAt(r, s, i + 1);
    } else if s != [] && IsSpace(s[|s| - 1]) {
      TrimIsStripping(s[..|s| - 1]);
      var i :| PaddedAt(r, s[..|s| - 1], i);
      assert PaddedAt(r, s, i);
    } else {
      assert PaddedAt(r, s, 0);
    }
  }

  /** There is only one way to strip a string. */
  lemma StrippingUnique(s: string, r1: string, r2: string)
    requires IsStrippingOf(r1, s) && IsStrippingOf(r2, s)
    ensures r1 == r2
  {
    var i1 :| PaddedAt(r1, s, i1);
    var i2 :| PaddedAt(r2, s, i2);
    if exists m :: 0 <= m < |s| && !IsSpace(s[m]) {
      var m :| 0 <= m < |s| && !IsSpace(s[m]);
      assert i1 <= m < i1 + |r1| && i2 <= m < i2 + |r2|;
      assert !IsSpace(s[i1]) && !IsSpace(s[i2]);
      assert !IsSpace(s[i1 + |r1| - 1]) && !IsSpace(s[i2 + |r2| - 1]);
      assert i1 == i2 && |r1| == |r2|;
    } else {
      assert r1 == [] && r2 == [];
    }
  }

  /** Stripping whitespace padding off a trimmed string gives it back;
      in particular strip() is idempotent. */
  lemma TrimPadded(before: string, s: string, after: string)
    requires AllSpace(before) && AllSpace(after) && IsTrimmed(s)
    ensures Trim(before + s + after) == s
  {
    var t := before + s + after;
    assert PaddedAt(s, t, |before|);
    TrimIsStripping(t);
    StrippingUnique(t, s, Trim(t));
  }

  /** strip() does not see whitespace padding added around its argument. */
  lemma TrimIgnoresPadding(before: string, s: string, after: string)
    requires AllSpace(before) && AllSpace(after)
    ensures Trim(before + s + after) == Trim(s)
  {
    var t := before + s + after;
    var r := Trim(s);
    TrimIsStripping(s);
    var i :| PaddedAt(r, s, i);
    assert PaddedAt(r, t, |before| + i);
    TrimIsStripping(t);
    StrippingUnique(t, r, Trim(t));
  }

  lemma TrimTrimmed(s: string)
    requires IsTrimmed(s)
    ensures Trim(s) == s
  {
    TrimPadded([], s, []);
    assert [] + s + [] == s;
  }

  // ---------------------------------------------------------------------------
  // str.split(sep) and str.join

  /** The position of the first occurrence of c in s. */
  function IndexOf(s: string, c: char): (i: nat)
    requires c in s
    ensures i < |s| && s[i] == c
    ensures forall k | 0 <= k < i :: s[k] != c
  {
    if s[0] == c then 0 else 1 + IndexOf(s[1..], c)
  }

  /** Python's sep.join(parts). */
  function Join(sep: string, parts: seq<string>): string
  {
    if |parts| == 0 then ""
    else if |parts| == 1 then parts[0]
    else parts[0] + sep + Join(sep, parts[1..])
  }

  /** Joining two non-empty lists is joining their joins. */
  lemma {:induction false} JoinAppend(sep: string, a: seq<string>, b: seq<string>)
    requires a != [] && b != []
    ensures Join(sep, a + b) == Join(sep, a) + sep + Join(sep, b)
    decreases |a|
  {
    if |a| == 1 {
      assert (a + b)[1..] == b;
    } else {
      JoinAppend(sep, a[1..], b);
      assert (a + b)[1..] == a[1..] + b;
    }
  }

  /** Python's s.split(sep) for a one-character separator: the pieces
      between the occurrences of sep, from left to right, always at least one. */
  function Split(s: string, sep: char): (r: seq<string>)
    ensures |r| >= 1
    ensures forall k | 0 <= k < |r| :: sep !in r[k]
    decreases |s|
  {
    if sep !in s then [s]
    else
      var i := IndexOf(s, sep);
      [s[..i]] + Split(s[i + 1..], sep)
  }

  /** Joining the pieces back with the separator restores the text. */
  lemma {:induction false} JoinSplit(s: string, sep: char)
    ensures Join([sep], Split(s, sep)) == s
    decreases |s|
  {
    if sep in s {
      var i := IndexOf(s, sep);
      JoinSplit(s[i + 1..], sep);
      var rest := Split(s[i + 1..], sep);
      assert Split(s, sep) == [s[..i]] + rest;
      assert ([s[..i]] + rest)[1..] == rest;
      assert s == s[..i] + [sep] + s[i + 1..];
    }
  }

  /** Splitting takes the text up to the first separator as the first piece. */
  lemma SplitCons(a: string, sep: char, b: string)
    requires sep !in a
    ensures Split(a + [sep] + b, sep) == [a] + Split(b, sep)
  {
    var s := a + [sep] + b;
    assert s[|a|] == sep;
    assert forall k | 0 <= k < |a| :: s[k] == a[k];
    var i := IndexOf(s, sep);
    assert s[..i] == a;
    assert s[i + 1..] == b;
  }

  /** Split undoes Join when no piece holds the separator. */
  lemma {:induction false} SplitJoin(parts: seq<string>, sep: char)
    requires |parts| >= 1
    requires forall k | 0 <= k < |parts| :: sep !in parts[k]
    ensures Split(Join([sep], parts), sep) == parts
    decreases |parts|
  {
    if |parts| == 1 {
      assert Split(parts[0], sep) == [parts[0]];
    } else {
      SplitJoin(parts[1..], sep);
      SplitCons(parts[0], sep, Join([sep], parts[1..]));
      assert [parts[0]] + parts[1..] == parts;
    }
  }

  predicate StartsWith(s: string, prefix: string) {
    |prefix| <= |s| && s[..|prefix|] == prefix
  }

  predicate EndsWith(s: string, suffix: string) {
    |suffix| <= |s| && s[|s| - |suffix|..] == suffix
  }

  // ---------------------------------------------------------------------------
  // int(s) and str(n)

  predicate IsDigit(c: char) {
    '0' <= c <= '9'
  }

  predicate AllDigits(s: string) {
    forall k | 0 <= k < |s| :: IsDigit(s[k])
  }

  function DigitValue(c: char): nat
    requires IsDigit(c)
  {
    c as int - '0' as int
  }

  function DigitChar(d: nat): (c: char)
    requires d < 10
    ensures IsDigit(c) && DigitValue(c) == d
  {
    ('0' as int + d) as char
  }

  /** The value of a string of decimal digits, most significant first. */
  function DigitsValue(ds: string): nat
    requires AllDigits(ds)
  {
    if ds == [] then 0 else DigitsValue(ds[..|ds| - 1]) * 10 + DigitValue(ds[|ds| - 1])
  }

  /** The decimal digits of n, without leading zeros. */
  function NatDigits(n: nat): (r: string)
    ensures r != [] && AllDigits(r)
    ensures DigitsValue(r) == n
    ensures |r| > 1 ==> r[0] != '0'
  {
    if n < 10 then [DigitChar(n)]
    else
      var r := NatDigits(n / 10) + [DigitChar(n % 10)];
      assert r[..|r| - 1] == NatDigits(n / 10);
      r
  }

  /** The whitespace int() skips around a number: \t \n \v \f \r and the
      space. Unlike str.strip(), it does not skip U+001C..U+001F. */
  predicate IsIntSpace(c: char) {
    c == ' ' || '\t' <= c <= '\r'
  }

  predicate AllIntSpace(s: string) {
    forall k | 0 <= k < |s| :: IsIntSpace(s[k])
  }

  /** s without its leading int() whitespace. */
  function DropLeading(s: string): (r: string)
    ensures |r| <= |s|
    ensures r != [] ==> !IsIntSpace(r[0])
    decreases |s|
  {
    if s != [] && IsIntSpace(s[0]) then DropLeading(s[1..]) else s
  }

  /** s without its trailing int() whitespace. */
  function DropTrailing(s: string): (r: string)
    ensures |r| <= |s|
    ensures r != [] ==> !IsIntSpace(r[|r| - 1])
    decreases |s|
  {
    if s != [] && IsIntSpace(s[|s| - 1]) then DropTrailing(s[..|s| - 1]) else s
  }

  /** The text int() reads: s without the surrounding int() whitespace. */
  function IntTrim(s: string): (r: string)
    ensures r != [] ==> !IsIntSpace(r[0]) && !IsIntSpace(r[|r| - 1])
  {
    DropTrailingPrefix(DropLeading(s));
    DropTrailing(DropLeading(s))
  }

  /** A text that neither starts nor ends with int() whitespace is what
      int() reads. */
  lemma IntTrimmed(t: string)
    requires t != [] && !IsIntSpace(t[0]) && !IsIntSpace(t[|t| - 1])
    ensures IntTrim(t) == t
  {
    assert DropLeading(t) == t;
  }

  /** Dropping leading whitespace leaves a suffix. */
  lemma {:induction false} DropLeadingSuffix(s: string)
    ensures DropLeading(s) == s[|s| - |DropLeading(s)|..]
    decreases |s|
  {
    if s != [] && IsIntSpace(s[0]) {
      DropLeadingSuffix(s[1..]);
    }
  }

  /** Dropping trailing whitespace leaves a prefix. */
  lemma {:induction false} DropTrailingPrefix(s: string)
    ensures DropTrailing(s) == s[..|DropTrailing(s)|]
    decreases |s|
  {
    if s != [] && IsIntSpace(s[|s| - 1]) {
      DropTrailingPrefix(s[..|s| - 1]);
    }
  }

  /** The first and last characters int() reads occur in its argument. */
  lemma IntTrimEnds(s: string)
    requires IntTrim(s) != []
    ensures var t := IntTrim(s); t[0] in s && t[|t| - 1] in s
  {
    var l := DropLeading(s);
    var t := DropTrailing(l);
    DropLeadingSuffix(s);
    DropTrailingPrefix(l);
    assert t[0] == l[0] == s[|s| - |l|];
    assert t[|t| - 1] == l[|t| - 1] == s[|s| - |l| + |t| - 1];
  }

  lemma {:induction false} DropLeadingPadding(pre: string, s: string)
    requires AllIntSpace(pre)
    ensures DropLeading(pre + s) == DropLeading(s)
    decreases |pre|
  {
    if pre != [] {
      assert (pre + s)[1..] == pre[1..] + s;
      DropLeadingPadding(pre[1..], s);
    } else {
      assert pre + s == s;
    }
  }

  lemma {:induction false} DropTrailingPadding(s: string, post: string)
    requires AllIntSpace(post)
    ensures DropTrailing(s + post) == DropTrailing(s)
    decreases |post|
  {
    if post != [] {
      assert (s + post)[..|s + post| - 1] == s + post[..|post| - 1];
      DropTrailingPadding(s, post[..|post| - 1]);
    } else {
      assert s + post == s;
    }
  }

  /** Text after the first non-blank character stays when the leading
      whitespace is dropped. */
  lemma {:induction false} DropLeadingAppend(s: string, post: string)
    ensures DropLeading(s) != [] ==> DropLeading(s + post) == DropLeading(s) + post
    ensures DropLeading(s) == [] ==> DropLeading(s + post) == DropLeading(post)
    decreases |s|
  {
    if s == [] {
      assert s + post == post;
    } else if IsIntSpace(s[0]) {
      assert (s + post)[1..] == s[1..] + post;
      DropLeadingAppend(s[1..], post);
    }
  }

  /** int() does not see whitespace padding around its argument. */
  lemma IntTrimIgnoresPadding(pre: string, s: string, post: string)
    requires AllIntSpace(pre) && AllIntSpace(post)
    ensures IntTrim(pre + s + post) == IntTrim(s)
  {
    assert pre + s + post == pre + (s + post);
    DropLeadingPadding(pre, s + post);
    DropLeadingAppend(s, post);
    if DropLeading(s) != [] {
      DropTrailingPadding(DropLeading(s), post);
    } else {
      DropLeadingPadding(post, []);
      assert post + [] == post;
    }
  }

  /** Python's int(s) on ASCII text: optional surrounding whitespace, an
      optional sign, then one or more decimal digits; None where Python
      raises ValueError. */
  function ParseInt(s: string): (r: Option<int>)
    ensures r.Some? ==> !AllSpace(s) && !AllIntSpace(s)
    ensures r.Some? && r.value < 0 ==> '-' in s
  {
    var t := IntTrim(s);
    if t != [] && (t[0] == '-' || t[0] == '+') then
      var ds := t[1..];
      if ds != [] && AllDigits(ds) then
        var v: int := DigitsValue(ds);
        IntTrimEnds(s);
        assert IsDigit(t[|t| - 1]);
        Some(if t[0] == '-' then -v else v)
      else None
    else if t != [] && AllDigits(t) then
      IntTrimEnds(s);
      assert IsDigit(t[|t| - 1]);
      Some(DigitsValue(t))
    else None
  }

  /** int() ignores surrounding whitespace. */
  lemma ParseIntIgnoresPadding(pre: string, s: string, post: string)
    requires AllIntSpace(pre) && AllIntSpace(post)
    ensures ParseInt(pre + s + post) == ParseInt(s)
  {
    IntTrimIgnoresPadding(pre, s, post);
  }

  lemma ParseUnsigned(ds: string)
    requires ds != [] && AllDigits(ds)
    ensures ParseInt(ds) == Some(DigitsValue(ds))
  {
    assert IsDigit(ds[0]) && IsDigit(ds[|ds| - 1]);
    IntTrimmed(ds);
  }

  lemma ParseNegative(ds: string)
    requires ds != [] && AllDigits(ds)
    ensures ParseInt("-" + ds) == Some(-(DigitsValue(ds) as int))
  {
    var t := ['-'] + ds;
    assert t[1..] == ds;
    assert t[0] == '-' && t[|t| - 1] == ds[|ds| - 1];
    IntTrimmed(t);
  }

  lemma ParsePlus(ds: string)
    requires ds != [] && AllDigits(ds)
    ensures ParseInt("+" + ds) == Some(DigitsValue(ds))
  {
    var t := ['+'] + ds;
    assert t[1..] == ds;
    assert t[0] == '+' && t[|t| - 1] == ds[|ds| - 1];
    IntTrimmed(t);
  }

  /** int() refuses a text holding, after the whitespace, a character that
      is neither a digit nor a leading sign. */
  lemma ParseIntRefuses(s: string, k: nat)
    requires var t := IntTrim(s); k < |t| && !IsDigit(t[k]) && !(k == 0 && (t[0] == '+' || t[0] == '-'))
    ensures ParseInt(s) == None
  {
    var t := IntTrim(s);
    if k > 0 && t != [] && (t[0] == '-' || t[0] == '+') {
      assert t[1..][k - 1] == t[k];
    }
  }

  /** str.strip() removes the information separator U+001C, but int() does
      not skip it: int("\x1c2020") raises ValueError. */
  lemma SeparatorNotIntSpace(ds: string)
    requires ds != [] && AllDigits(ds)
    ensures Trim([28 as char] + ds) == ds
    ensures ParseInt([28 as char] + ds) == None
  {
    var s := [28 as char] + ds;
    DigitText(ds);
    assert IsDigit(ds[|ds| - 1]) && s[|s| - 1] == ds[|ds| - 1];
    TrimPadded([28 as char], ds, []);
    assert [28 as char] + ds + [] == s;
    IntTrimmed(s);
    ParseIntRefuses(s, 0);
  }

  /** The digits of a positive number do not start with a zero. */
  lemma PositiveLeadingDigit(n: nat)
    requires n >= 1
    ensures NatDigits(n)[0] != '0'
  {
    var ds := NatDigits(n);
    if |ds| == 1 {
      assert ds[..0] == [];
      assert DigitsValue(ds) == DigitValue(ds[0]);
    }
  }

  /** A digit string is stripped and made of digits. */
  lemma DigitText(ds: string)
    requires ds != [] && AllDigits(ds)
    ensures IsTrimmed(ds)
  {
    assert IsDigit(ds[0]) && IsDigit(ds[|ds| - 1]);
  }

  /** A minus sign followed by a digit string. */
  lemma NegativeText(ds: string)
    requires ds != [] && AllDigits(ds)
    ensures var r := "-" + ds;
      IsTrimmed(r) && |r| >= 2 && r[0] == '-' && r[1] == ds[0] && r[1..] == ds &&
      forall k | 0 <= k < |r| :: r[k] == '-' || IsDigit(r[k])
  {
    var r := "-" + ds;
    assert r[1..] == ds;
    assert r[|r| - 1] == ds[|ds| - 1];
    forall k | 0 <= k < |r| ensures r[k] == '-' || IsDigit(r[k]) {
      if k > 0 {
        assert r[k] == ds[k - 1];
      }
    }
  }

  /** Python's str(n) for an int: the decimal digits without leading zeros,
      after a minus sign when n is negative; int() reads it back. */
  function IntToString(n: int): (r: string)
    ensures ParseInt(r) == Some(n)
    ensures r != [] && IsTrimmed(r)
    ensures forall k | 0 <= k < |r| :: r[k] == '-' || IsDigit(r[k])
    ensures n >= 0 ==> AllDigits(r) && (|r| > 1 ==> r[0] != '0')
    ensures n < 0 ==> |r| >= 2 && r[0] == '-' && r[1] != '0' && AllDigits(r[1..])
  {
    if n < 0 then
      var ds := NatDigits(-n);
      ParseNegative(ds);
      PositiveLeadingDigit(-n);
      NegativeText(ds);
      "-" + ds
    else
      var ds := NatDigits(n);
      ParseUnsigned(ds);
      DigitText(ds);
      ds
  }
}
