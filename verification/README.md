# Quotes Intelligence Dashboard — a Dafny model of its data logic

The dashboard loads two tables scraped from a quotes site. The quotes table
has a quote, an author and a comma-separated tag field that may be missing.
The authors table has a name, a birth date, a birth place and a description.
Three pages compute something from these tables, and this project models that
computation:

- **Home** shows a "Total Tags" figure. The present tag fields are joined
  with `", "`, the result is split on `", "` again, and the distinct pieces
  are counted.
- **Author Explorer** offers the distinct author names in a picker. It then
  shows the first authors row whose name equals the one picked.
- **Smart Analytics** takes a free-text query, lower-cases it and classifies
  it with an ordered cascade of keyword tests:
  1. "top" together with "author" gives a bar chart of the n most-quoted authors;
  2. "most popular author" gives a banner naming the most-quoted author and their count;
  3. "quote" gives the first n rows of the quotes table;
  4. "tag" gives a chart of the five most frequent tags;
  5. anything else gives a hint.

  The count n is read from all the digits of the query, concatenated, and
  defaults to 5 when there is none.

Modules, one file each:

- `Optional` (`optional.dfy`): the option type.
- `Text` (`text.dfy`): ASCII lower-casing, substring search, digit filtering,
  decimal reading and writing, and splitting and joining on `", "`.
- `Counting` (`counting.dfy`): the pandas operations the pages use:
  `value_counts`, `head`, `idxmax`/`max` and `unique`.
- `Tables` (`tables.dfy`): the two row types, the dropped-NaN tag column,
  the exploded tag tokens, the distinct-tag figure and the author lookup.
- `Analytics` (`analytics.dfy`): query classification, the count parameter
  and the answer for each intent.

Points where the code's behaviour is easy to misread; the model follows the
code in each case:

- A tag field that is present but empty contributes the token `""`.
  `"".split(", ")` is `[""]`, and `explode` keeps that token.
- With no tagged row at all, "Total Tags" is 1, not 0: the joined string is
  `""`, and splitting it gives one empty piece.
- The count parameter concatenates every digit of the query, not only the
  first run of digits: "Top 1 of 5 Authors" asks for 15.
- A query whose digits read 0 asks for 0 rows or authors. Nothing forces
  n ≥ 1.
- `idxmax` on an empty author column raises. The model answers
  `EmptySeriesError` rather than excluding that input.
- `int` refuses a digit string longer than 4300 digits, leading zeros
  included, with a `ValueError`. This is CPython's default cap since
  version 3.11. An author or quote query with more digits than that gives
  `CountTooLong`. A tag query never reads its digits, so it is unaffected.
- Looking up a name that has no row raises `IndexError` on `iloc[0]`. The
  model returns `None`, and `Tables.ChoicesResolve` shows that a name
  offered by the picker never takes that path.

## Model

| member | source | states |
|---|---|---|
| Text.Lower | app.py:172 | The lower-cased query has the same length, contains no upper-case letter, leaves every other character alone and maps each upper-case letter 32 code points down |
| Text.LowerIdempotent | app.py:172 | Lower-casing an already lower-cased query changes nothing |
| Text.Contains | app.py:178 | Python's `in` on strings; its partner Text.ContainsIff ties it to an occurrence at some position |
| Text.ContainsIff | app.py:178 | The `in` test succeeds exactly when the keyword occurs at some position of the query |
| Text.ContainsTransitive | app.py:187 | A query containing a phrase contains every keyword inside that phrase |
| Text.Digits | app.py:179 | `filter(str.isdigit, query)` keeps only digit characters and never lengthens the query |
| Text.NoDigitsIff | app.py:179 | The filtered string is empty exactly when no character of the query is a digit |
| Text.DigitsAppend | app.py:179 | The digits of a concatenation are the digits of the left part followed by those of the right part |
| Text.DigitsLower | app.py:172-179 | Lower-casing the query does not change its digits, so n is the same before and after |
| Text.ParseDecimal | app.py:179 | `int` on a digit string: the value of k digits is below 10 to the k; its partners ParseShow and ParseAppend fix the value |
| Text.ParseShow | app.py:179 | `int` reads back every number written in decimal |
| Text.ParseAppend | app.py:179 | Reading a digit string that is split in two shifts the left part's value past the right part's digits |
| Text.LeadingZero | app.py:179 | `int` ignores a leading zero |
| Text.ShowDecimal | app.py:179 | A number written in decimal is a non-empty digit string with no leading zero unless it is 0 |
| Text.Split | app.py:81 | Splitting on ", " gives at least one piece, even for the empty string |
| Text.Join | app.py:81 | `", ".join`: no fields give the empty string and one field gives itself; its partners SplitJoin and JoinSplit make it the inverse of the split |
| Text.SplitEach | app.py:199 | `.str.split(", ").explode()`: at least one token per field, and none only for no fields; SplitEachMembers says which tokens occur |
| Text.SplitAroundSep | app.py:81 | Splitting around a separator gives the pieces of the left part followed by the pieces of the right part |
| Text.SplitJoin | app.py:81 | Splitting a join of at least one field gives the concatenated per-field splits |
| Text.SplitJoinEmpty | app.py:80-81 | Joining no fields and splitting the result gives the single empty piece |
| Text.JoinSplit | app.py:81 | Joining the pieces of a split rebuilds the string |
| Text.SplitPiecesFree | app.py:81 | No piece of a split contains the separator |
| Text.SplitHeadPrefix | app.py:81 | The first piece of a split is a prefix of the string |
| Text.SplitEachMembers | app.py:199 | A token of the exploded split comes from splitting one of the fields, and every such piece is a token |
| Counting.Dedup | app.py:154 | `unique()` has no repeated name and holds exactly the names of the column |
| Counting.DistinctCard | app.py:81 | A sequence without repeats has as many distinct values as elements |
| Counting.InsertByCount | app.py:180 | Inserting an entry into a non-increasing table keeps it non-increasing and keeps the same entries |
| Counting.SortByCount | app.py:180 | Sorting by count gives a non-increasing permutation of the entries |
| Counting.SortKeepsDistinctKeys | app.py:180 | Sorting does not duplicate a value |
| Counting.SortKeepsCounts | app.py:180 | Sorting keeps each value's count equal to its number of occurrences |
| Counting.SortKeepsKeys | app.py:180 | Sorting keeps the set of values |
| Counting.Tally | app.py:180 | One entry per distinct value, carrying that value's number of occurrences |
| Counting.ValueCounts | app.py:180 | `value_counts()` lists each distinct value once with its number of occurrences, most frequent first |
| Counting.TopN | app.py:180 | `value_counts().head(n)` has min(n, distinct values) entries, with true counts, most frequent first; every value left out occurs at most as often as every value kept |
| Counting.PrefixOfRanking | app.py:180 | A prefix of a complete ranking outranks every value it leaves out |
| Counting.MostFrequent | app.py:188-189 | `idxmax()`/`max()` give a value of the column with the greatest count and that count; there is none exactly when the column is empty |
| Counting.MostFrequentHeadsTopN | app.py:180-189 | The popular author's count is the count at the head of any non-empty top-n table |
| Counting.Head | app.py:195 | `head(n)` is the prefix of the first min(n, rows) rows |
| Tables.AuthorColumn | app.py:180 | The author column has one name per quote row, in row order |
| Tables.AuthorCountIsRowCount | app.py:180 | The count of a name in the author column is the number of quote rows attributed to that author |
| Tables.PresentTags | app.py:80 | `dropna()` keeps at most all rows and is empty exactly when no row has a tag field |
| Tables.PresentTagsMembers | app.py:80 | A string is a kept tag field exactly when some row carries it |
| Tables.TagTokens | app.py:199 | The exploded tag column; its partner TagTokensMembers says exactly which tokens occur |
| Tables.TagTokensMembers | app.py:199 | A tag token is exactly a piece of some present tag field's split |
| Tables.TagCountIsRowSum | app.py:199-200 | A tag's count among the tokens is the sum over the rows of its occurrences in each row's split |
| Tables.DistinctTagCount | app.py:80-81 | The "Total Tags" figure: join the present fields, split again, count the distinct pieces; DistinctTagCountSpec says what that number is |
| Tables.DistinctTagCountSpec | app.py:80-81 | With a tagged row the total is the number of distinct tag tokens; with none it is 1 |
| Tables.FirstAuthorIndex | app.py:157 | Gives the position of the first row with the name, or none exactly when no row has it |
| Tables.FindAuthor | app.py:157 | Gives the first authors row with the selected name, or none exactly when no row has it |
| Tables.AuthorChoices | app.py:154 | The picker offers each author name of the table exactly once and nothing else |
| Tables.ChoicesResolve | app.py:154-157 | Every name the picker offers finds its own row |
| Analytics.CountParam | app.py:179 | n is 5 when the query holds no digit; otherwise it is below 10 to the number of digits. It is the value `int` would give; Interpret applies the 4300-digit cap |
| Analytics.CountParamConcatenates | app.py:179 | Digits in two parts of a query are read as one number |
| Analytics.CountParamReadsNumber | app.py:179 | A query whose only digits spell n yields n, 0 included |
| Analytics.Classify | app.py:172-207 | An empty query classifies to nothing; every other query gets an intent |
| Analytics.ClassifyIsFirstMatch | app.py:178-207 | The cascade equals first-match evaluation of the ordered rule table |
| Analytics.TopAuthorWins | app.py:178-180 | "top" with "author" selects the author ranking, with n read from the query, whatever else it says |
| Analytics.PopularAuthorExcludesTop | app.py:178-187 | The popular-author intent is reached only without "top", and always with "author" |
| Analytics.UnrecognizedIff | app.py:178-207 | A non-empty query gets the hint exactly when none of the four tests passes |
| Analytics.PopularAuthorWhen | app.py:187 | The popular-author phrase decides when "top" is absent |
| Analytics.QuoteListWhen | app.py:193-194 | "quote" decides once both author tests have failed |
| Analytics.TagRankingWhen | app.py:198 | "tag" decides once every earlier test has failed |
| Analytics.NoEarlierKeyword | app.py:178-193 | A short query with neither 'u' nor 'q' passes none of the tests before the tag test |
| Analytics.Interpret | app.py:174-207 | Nothing is shown exactly for the empty query; `idxmax` raises exactly for a popular-author query over an empty table; `int` raises exactly for an author or quote query with more than 4300 digits |
| Analytics.Respond | app.py:178-207 | Once the count has been read, an intent never shows nothing and never fails on the count; it raises exactly for the popular author over an empty table |
| Analytics.AuthorRankingSpec | app.py:178-180 | A count over 4300 digits raises; otherwise the author chart has min(n, distinct authors) bars with true row counts, most quoted first; no author left out has more quotes than a charted one |
| Analytics.PopularAuthorSpec | app.py:187-191 | The banner names an author of the table with the greatest number of rows and that number; an empty table raises |
| Analytics.PopularBanner | app.py:187-191 | Over a non-empty table the banner names an author of the table, with that author's row count, and no author has more rows |
| Analytics.QuoteListSpec | app.py:193-195 | A count over 4300 digits raises; otherwise the quote table shows the first min(n, rows) rows, unchanged and in order |
| Analytics.TagRankingSpec | app.py:198-200 | The tag chart has min(5, distinct tags) bars, each a distinct real tag with its occurrences over all split tag fields, most frequent first; no tag left out occurs more often than a charted one |
| Analytics.TagRankingIgnoresDigits | app.py:198-200 | Any two tag queries give the same chart: digits in them are not read |
| Analytics.SampleTopAuthors | app.py:171-180 | The placeholder's "top 5 authors" asks for the five most-quoted authors |
| Analytics.SampleScatteredDigits | app.py:178-179 | "Top 1 of 5 Authors" asks for fifteen authors |
| Analytics.SamplePopularAuthor | app.py:171-187 | The placeholder's "most popular author" selects the banner |
| Analytics.SampleTopTags | app.py:171-198 | "top tags" and "top 20 tags" both select the five-tag chart |
| Analytics.SampleQuotes | app.py:171-195 | "top 10 quotes" asks for ten rows and "0 quotes" for none |
| Analytics.SampleUnrecognized | app.py:174-207 | "banana" gets the hint and the empty query shows nothing |

## Left out

- Page layout, theming, CSS, charts, the banner and table widgets, and the
  CSV export buttons are presentation only. The model stops at the data each
  of them is given.
- Reading the CSV files is I/O. The tables are given as already-parsed rows,
  with a missing tag field as `None`.
- The Quotes Explorer search (app.py:140-146) treats the user's text as a
  regular expression. A regex engine is outside this model.
- Lower-casing and `str.isdigit` are modelled for ASCII only. Python's
  Unicode case mapping and its non-ASCII digits are not.
- Counting.ValueCounts: the order among equal counts is left open. pandas
  fixes it through its hashing and sort details, which are not modelled. So
  `idxmax` is only promised to give *a* most frequent author.
- Counting.MostFrequent: promises some value of greatest count, not the one
  pandas would pick among tied values, for the same reason.
- The home page's quote and author totals (`len`, `nunique`) are direct
  counts with nothing to model beyond `Counting.Dedup`.
- Missing (NaN) author names are not modelled. Every row has an author
  string.
