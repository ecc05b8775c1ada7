# faculty: degrees, instructors, the faculty database and uniqCount

A Dafny model of `lab10/faculty.py`, a utility module for a college's
faculty database stored as CSV. Each row of the database holds an
instructor's name, department and title, followed by any number of degree
descriptions such as `1994, Ph.D., Massachusetts Institute of Technology`.

The model covers four parts of the module.

- **Degrees** (`Degree.dfy`, module `Degrees`).
  - `Degree(info)` splits the description on every comma, converts the first field with `int()`, and strips the second and third fields. This is `Parse`, which returns a `Result` holding the error Python would raise.
  - It also covers the three level predicates `isbac`, `ismas` and `isdoc`, equality, `str` and `repr`.
- **Instructors** (`Instructor.dfy`, module `Instructors`).
  - The constructor strips the three texts and keeps the degree list.
  - Equality compares only the name and the department.
  - `str(i)` is a line of double-quoted, comma-separated fields.
- **Loading** (`Loader.dfy`, module `Loader`). The row loop of `readDB` takes rows that are already split into fields.
  - Each row gives one instructor, whose degrees are parsed from the fourth field on.
  - The first bad degree or short row stops the whole load.
  - The method `ReadDB` keeps the two nested loops of the source. It is proved equal to the function `Load`, and the properties are proved about `Load`.
- **uniqCount** (`Uniq.dfy` and `RunLength.dfy`).
  - The method `UniqCount` keeps the source's loop, its `lastValue` variable and the in-place increment of the last entry's count.
  - It is proved to produce a run-length encoding that expands back to its input and has no two adjacent entries with the same item. That encoding is unique, and it is the function `RunLengthOf`.

Two supporting files hold shared definitions.

- `Text.dfy` models the Python string operations the module relies on, restricted to ASCII:
  - `str.strip`, as `Trim`
  - `str.split` on one character, as `Split`
  - `str.join`, as `Join`
  - `int()` on text, as `ParseInt`
  - `str()` of an integer, as `IntToString`
- `Wrappers.dfy` holds `Option` and `Result`.

Python objects become Dafny values. A `Degree` never changes after construction, and neither does an `Instructor`. The list copies the source makes (`list(degrees)` in the constructor and in the `degrees` accessor) are therefore equal sequences that share nothing.

## Model

| member | source | states |
|---|---|---|
| Degrees.Parse | lab10/faculty.py:62-68 | Degree(info) splits on every comma; a successful parse yields a kind and an institution that are stripped and hold no comma |
| Degrees.ParseFields | lab10/faculty.py:62-68 | for any three comma-free fields, however padded, the year is int() of the first field and the kind and institution are the second and third fields stripped |
| Degrees.ParseErrorOrder | lab10/faculty.py:65-68 | int() of the first field is tried before the other fields are looked up: a bad year gives BadYear even when fields are missing; MissingField only when the year is an integer |
| Degrees.ParseFailsWhen | lab10/faculty.py:62-68 | parsing fails exactly when the first field is not an integer or there are fewer than three fields |
| Degrees.ParseDescription | lab10/faculty.py:62-68 | "year, kind, inst" with comma-free, stripped kind and institution and an integer year parses to exactly that degree |
| Degrees.ParseIgnoresExtraFields | lab10/faculty.py:62-68 | everything after a third comma is dropped: adding ",extra" does not change the result |
| Degrees.ParseNeedsThreeFields | lab10/faculty.py:62-68 | a description with one or two fields is refused |
| Degrees.ParseWithYear | lab10/faculty.py:62-65 | a four-digit year field gives the year its digits spell |
| Degrees.YearValue | lab10/faculty.py:65 | int() of four ASCII digits is their decimal value |
| Degrees.DocumentedDoctorate | lab10/faculty.py:44-52 | '..., Ph.D., Cornell University' parses to kind 'Ph.D.' and institution 'Cornell University' with the year its first field gives |
| Degrees.DocumentedMaster | lab10/faculty.py:54-56 | '..., M.A., McGill University' parses to kind 'M.A.' and institution 'McGill University', and the degree is a master's |
| Degrees.DocumentedBachelor | lab10/faculty.py:120 | '..., B.S., Massachusetts Institute of Technology' parses to kind 'B.S.' |
| Degrees.IsBac | lab10/faculty.py:85-87 | a bachelor's degree exactly when the kind's first two characters or its last two are 'B' then '.' |
| Degrees.IsDoc | lab10/faculty.py:93-95 | a doctorate exactly when the kind's first character is 'D' or its last two are 'D' then '.' |
| Degrees.IsMas | lab10/faculty.py:89-91 | a master's kind neither starts with 'D' nor ends with 'B.' or 'D.' (with LevelsCover: every other degree is a bachelor's or a doctorate) |
| Degrees.LevelsCover | lab10/faculty.py:85-95 | at least one of isbac, ismas, isdoc holds, and ismas excludes the other two |
| Degrees.ExactlyOneUnlessOverlap | lab10/faculty.py:21-24 | exactly one predicate holds whenever isbac and isdoc do not both hold |
| Degrees.DocumentedLevels | lab10/faculty.py:85-95 | 'Ph.D.' is a doctorate and not a bachelor's degree, 'M.A.' a master's, 'B.S.' a bachelor's and not a doctorate |
| Degrees.BachelorOfDivinityOverlap | lab10/faculty.py:21 | a 'B.D.' description parses, and the degree is both a bachelor's degree and a doctorate |
| Degrees.Classify | lab10/faculty.py:21-24 | one level per degree; bachelor exactly when isbac, master exactly when ismas, doctorate exactly when isdoc outside the overlap |
| Degrees.DegreeEq | lab10/faculty.py:97-100 | d == e exactly when year, kind and institution all agree |
| Degrees.Render | lab10/faculty.py:102-104 | str(d) starts with str() of the year and ends with the institution; RenderRoundTrip parses it back to d |
| Degrees.Repr | lab10/faculty.py:106-108 | repr(d) is 'Degree("' then str(d) then '")' |
| Degrees.RenderRoundTrip | lab10/faculty.py:102-104 | parsing str(d) of a well-formed degree gives d back |
| Degrees.ReparseRendered | lab10/faculty.py:102-104 | any degree that came from parsing renders to a description that parses to an equal degree |
| Degrees.ReprRoundTrip | lab10/faculty.py:106-108 | repr(d) is Degree("...") around a text that parses back to d |
| Instructors.Create | lab10/faculty.py:131-135 | the three texts are stored stripped and no longer than given; the degrees are stored as given, in order |
| Instructors.CreateStrips | lab10/faculty.py:131-134 | each stored text is its argument with exactly the surrounding whitespace removed |
| Instructors.CreateIdempotent | lab10/faculty.py:131-135 | constructing from an instructor's own (stripped) fields gives it back |
| Instructors.CreateIgnoresPadding | lab10/faculty.py:131-132 | whitespace around the name and the department does not change the instructor |
| Instructors.InstructorEq | lab10/faculty.py:158-160 | i == j exactly when the two agree once title and degrees are disregarded |
| Instructors.InstructorEqEquivalence | lab10/faculty.py:158-160 | instructor equality is reflexive, symmetric and transitive |
| Instructors.CreateEq | lab10/faculty.py:158-160 | two constructed instructors are equal exactly when their stripped names and stripped departments agree, whatever the titles and degrees |
| Instructors.Quotes | lab10/faculty.py:164 | every text is wrapped in double quotes, one per text, in order |
| Instructors.DegreeTexts | lab10/faculty.py:164 | str(d) of each degree, in order |
| Instructors.Render | lab10/faculty.py:162-165 | str(i) opens with a double quote and ends with a comma exactly when there are no degrees, otherwise with the closing quote of the last degree |
| Instructors.RenderAsFields | lab10/faculty.py:162-165 | str(i) is the quoted name, department, title and degree texts joined by commas, plus a trailing comma when there are no degrees |
| Instructors.SplitQuoted | lab10/faculty.py:162-165 | splitting such a line at the double quotes gives the fields back between the quotes |
| Instructors.RenderQuotedFields | lab10/faculty.py:162-165 | the quoted fields of str(i) are name, department, title and str(d) of each degree, when no text holds a double quote |
| Loader.Collect | lab10/faculty.py:176-187 | a successful walk has one value per element, each the element's conversion |
| Loader.CollectOk | lab10/faculty.py:176-187 | the walk succeeds exactly when every element converts |
| Loader.CollectFirstError | lab10/faculty.py:176-187 | the walk fails with the error of the first element that does not convert |
| Loader.AssembleRow | lab10/faculty.py:179-185 | an accepted row has at least three fields, gives Instructor(row[0], row[1], row[2], degrees) and one degree per field from the fourth on; ShortRow exactly when the row has fewer than three fields |
| Loader.AssembleRowError | lab10/faculty.py:181-183 | a row with a bad degree field is refused with the error of its first bad degree |
| Loader.AssembleRowOk | lab10/faculty.py:179-185 | a row of at least three fields whose degree fields all parse is accepted |
| Loader.Load | lab10/faculty.py:176-187 | a successful load has one instructor per row, in row order, each the one AssembleRow builds from its own row |
| Loader.LoadFails | lab10/faculty.py:176-187 | the load fails with the error of the first refused row, with no partial list |
| Loader.LoadSucceeds | lab10/faculty.py:176-187 | the load succeeds exactly when every row is accepted |
| Loader.ReadDB | lab10/faculty.py:176-187 | the nested loops compute exactly Load of the rows |
| Loader.ReadBackRendered | lab10/faculty.py:162-165 | the quoted fields of str(i), taken as a row, give i back for a stripped, quote-free instructor with well-formed degrees |
| Loader.LoadRendered | lab10/faculty.py:176-187 | loading the quoted fields of the rendered lines of several such instructors gives them all back, in order |
| Loader.ParseDegreeTexts | lab10/faculty.py:181-183 | the degree texts of well-formed degrees parse back to those degrees, in order |
| Uniq.UniqCount | lab10/faculty.py:211-224 | the result is a run-length encoding (counts at least one, adjacent items differ) that expands to the input, and it equals RunLengthOf(items) |
| Uniq.DocumentedShortExamples | lab10/faculty.py:204-208 | [] gives [] and [5] gives [[5, 1]] |
| Uniq.DocumentedRuns | lab10/faculty.py:198-199 | [a,a,a,b,b,c,c,c] gives [[a,3],[b,2],[c,3]] |
| Uniq.DocumentedNames | lab10/faculty.py:201-202 | [a,a,b,b,b,c] gives [[a,2],[b,3],[c,1]] |
| Uniq.DocumentedSeparateRuns | lab10/faculty.py:195-196 | [a,a,b,c,c,c,a,b] gives five entries: items that are not adjacent are not merged |
| RunLength.RunLengthOf | lab10/faculty.py:211-224 | the encoding is no longer than the input, empty exactly for empty input, and its last item is the input's last item |
| RunLength.Push | lab10/faculty.py:217-222 | after a step the last entry holds the new item, and the result grows by at most one entry |
| RunLength.PushEncodes | lab10/faculty.py:217-222 | a step keeps a run encoding and appends its item to the expansion |
| RunLength.RunLengthEncodes | lab10/faculty.py:211-224 | RunLengthOf(s) is a run encoding whose expansion is s |
| RunLength.CountsSumToLength | lab10/faculty.py:211-224 | the counts add up to the input's length |
| RunLength.RunEncodingUnique | lab10/faculty.py:211-224 | two run encodings with the same expansion are equal |
| RunLength.EncodingIsRunLength | lab10/faculty.py:211-224 | any run encoding of s is RunLengthOf(s) |
| Text.Trim | lab10/faculty.py:67-68 | strip() leaves no surrounding whitespace and takes only characters of its input |
| Text.TrimIsStripping | lab10/faculty.py:67-68 | strip() removes exactly the leading and trailing whitespace |
| Text.TrimTrimmed | lab10/faculty.py:132-134 | stripping a stripped text changes nothing |
| Text.Split | lab10/faculty.py:62 | split(sep) gives at least one piece and no piece holds the separator |
| Text.JoinSplit | lab10/faculty.py:62 | joining the pieces of split(sep) with sep restores the text |
| Text.SplitJoin | lab10/faculty.py:62 | split undoes join when no piece holds the separator |
| Text.JoinAppend | lab10/faculty.py:164 | joining two non-empty lists is joining their joins with the separator between |
| Text.ParseInt | lab10/faculty.py:65 | int() refuses text that is blank by its own whitespace (tab to carriage return, and space) and gives a negative value only when the text holds a minus sign |
| Text.ParseIntIgnoresPadding | lab10/faculty.py:65 | tabs, newlines, vertical tabs, form feeds, carriage returns and spaces around the text do not change int() |
| Text.ParseIntRefuses | lab10/faculty.py:65 | int() raises when its stripped text holds a character that is neither a digit nor a leading sign |
| Text.ParsePlus | lab10/faculty.py:65 | int() of '+' followed by digits is their decimal value |
| Text.SeparatorNotIntSpace | lab10/faculty.py:65-68 | strip() removes the separator U+001C, but int() refuses a year that begins with it |
| Text.ParseUnsigned | lab10/faculty.py:65 | int() of a non-empty digit string is its decimal value |
| Text.ParseNegative | lab10/faculty.py:65 | int() of '-' followed by digits is the negated decimal value |
| Text.IntToString | lab10/faculty.py:104 | int() of str(n) is n; str(n) is non-empty and stripped, digits alone for n >= 0, '-' then digits for n < 0, with no leading zero and no "-0" |

## Left out

- Opening the file and decoding CSV in `readDB` (lab10/faculty.py:177-178): rows are given as already-split sequences of fields. The CSV quoting rules are not modelled. `QuotedFields` reads a line by its double quotes, which agrees with a CSV reader only for fields that hold no double quote. A CSV reader also reads the trailing comma of a degree-less instructor's line as one more, empty field, which `Degree()` would refuse. `ReadBackRendered` and `LoadRendered` do not cover that difference.
- The doctest runner and the `__main__` block (lab10/faculty.py:227-232): these are test harness, not behaviour.
- `Instructor.__repr__` (lab10/faculty.py:167-169): it depends on Python's `!r` quoting of strings and lists.
- `int()` accepts digit-group underscores and non-ASCII digits, and `str.strip()` removes all Unicode whitespace. The model takes the year as optional ASCII whitespace, an optional sign and ASCII decimal digits. Within ASCII the two differ, and the model keeps the difference: `strip()` removes tab, newline, vertical tab, form feed, carriage return, the separators 28-31 and space, while `int()` skips only tab through carriage return and space.
- Assigning to the private slots, as the doctest at lab10/faculty.py:57-59 does: degrees and instructors are values here.
- `__eq__` against an object of another class, which raises AttributeError (lab10/faculty.py:99, 160): Dafny's types exclude it.
- The accessors `year`, `kind`, `institution`, `name`, `dept`, `title` and `degrees` (lab10/faculty.py:70-83, 138-156) are the datatype's fields. The fresh list `degrees` returns, and changes to it that leave the instructor unchanged, need no member, because sequences are values.
- `UniqCount` keeps its entries in a sequence it reassigns, not in a list of mutable two-element lists. Aliasing between entries is not modelled.
- `UniqCount`: an input whose first item is `None` makes the source index an empty list. The model's `lastValue` is an `Option` separate from the items, so that crash has no counterpart. The docstring's promise to remove `None` values (lab10/faculty.py:191) is not implemented by the code and is not modelled.
- `Degree()` splits its description on every comma and ignores fields after the third; the model does the same (`Degrees.ParseIgnoresExtraFields`).
- The documented examples with concrete years and integer lists are stated over arbitrary year texts and distinct items (`DocumentedDoctorate`, `DocumentedRuns`, ...), which covers the concrete cases.

## Findings

| source | as written | input that shows it | evidently intended | confidence | as-written member | corrected member |
|---|---|---|---|---|---|---|
| lab10/faculty.py:21-24, 85-95 | the module documentation says every degree has exactly one of isbac, ismas, isdoc true, but isbac (starts or ends with "B.") and isdoc (starts with "D" or ends with "D.") overlap | kind "B.D." (Bachelor of Divinity), e.g. `Degree("1990, B.D., Yale University")`: isbac and isdoc are both true | exactly one level per degree, the bachelor pattern taking precedence | not executed | Degrees.BachelorOfDivinityOverlap | Degrees.Classify |
