/** The "Smart Analytics" page: a lower-cased free-text query is classified
    by an ordered cascade of keyword tests, a count is read from its digits,
    and the matching aggregation over the quotes table is produced. */
module Analytics {

  import opened Optional
  import Text
  import Counting
  import Tables

  /** The five outcomes of classifying a non-empty query. */
  datatype Intent =
    | AuthorRanking(n: nat)
    | PopularAuthor
    | QuoteList(n: nat)
    | TagRanking
    | Unrecognized

  /** What the page shows for a classified query. */
  datatype Answer =
    | AuthorChart(authors: seq<Counting.Entry<string>>)
    | PopularAuthorBanner(author: string, count: nat)
    | QuoteTable(rows: seq<Tables.QuoteRecord>)
    | TagChart(tags: seq<Counting.Entry<string>>)
    | Hint

  /** `Silent` for an empty query; `EmptySeriesError` where `idxmax` raises
      on an empty quotes table; `CountTooLong` where `int` refuses the digit
      string with a `ValueError`. */
  datatype Response = Silent | Shown(answer: Answer) | EmptySeriesError | CountTooLong

  /** Count used when the query holds no digit. */
  const DefaultCount: nat := 5

  /** CPython's default cap on the number of digits `int` converts from a
      decimal string (`sys.int_info.default_max_str_digits`); longer strings,
      leading zeros included, raise `ValueError`. */
  const MaxIntDigits: nat := 4300

  /** `int` accepts the query's digit string. */
  predicate CountReadable(query: string) {
    |Text.Digits(query)| <= MaxIntDigits
  }

  /** The intents whose branch reads a count from the query. */
  predicate ReadsCount(intent: Intent) {
    intent.AuthorRanking? || intent.QuoteList?
  }

  /** Size of the tag chart, whatever the query says. */
  const TagChartSize: nat := 5

  /** `int("".join(filter(str.isdigit, query)) or 5)`: all digits of the
      query, concatenated left to right and read in base 10; 5 only when
      there is no digit at all. */
  function CountParam(query: string): (n: nat)
    ensures (forall i :: 0 <= i < |query| ==> !Text.IsDigit(query[i])) ==> n == DefaultCount
    ensures |Text.Digits(query)| > 0 ==> n < Text.Pow10(|Text.Digits(query)|)
  {
    var ds := Text.Digits(query);
    Text.NoDigitsIff(query);
    if |ds| == 0 then DefaultCount else Text.ParseDecimal(ds)
  }

  /** Digits scattered through the query are read as one number: the digits
      of the left part are shifted past those of the right part. */
  lemma CountParamConcatenates(a: string, b: string)
    requires |Text.Digits(a)| > 0 && |Text.Digits(b)| > 0
    ensures CountParam(a + b) ==
      CountParam(a) * Text.Pow10(|Text.Digits(b)|) + CountParam(b)
  {
    Text.DigitsAppend(a, b);
    Text.ParseAppend(Text.Digits(a), Text.Digits(b));
  }

  /** A query whose only digits spell `n` in the usual way yields `n`, 0
      included. */
  lemma CountParamReadsNumber(a: string, n: nat, b: string)
    requires forall i :: 0 <= i < |a| ==> !Text.IsDigit(a[i])
    requires forall i :: 0 <= i < |b| ==> !Text.IsDigit(b[i])
    ensures CountParam(a + Text.ShowDecimal(n) + b) == n
  {
    var ds := Text.ShowDecimal(n);
    Text.NoDigitsIff(a);
    Text.NoDigitsIff(b);
    Text.DigitsAppend(a + ds, b);
    Text.DigitsAppend(a, ds);
    DigitsOfDigits(ds);
    assert Text.Digits(a + ds + b) == ds;
    Text.ParseShow(n);
  }

  lemma {:induction false} DigitsOfDigits(ds: string)
    requires Text.AllDigits(ds)
    ensures Text.Digits(ds) == ds
  {
    if |ds| > 0 {
      DigitsOfDigits(ds[1..]);
    }
  }

  /** The ordered keyword cascade on the lower-cased query; the first test
      that passes decides. `None` for the empty query, which shows nothing. */
  function Classify(rawQuery: string): (r: Option<Intent>)
    ensures r.None? <==> |rawQuery| == 0
  {
    var q := Text.Lower(rawQuery);
    if |q| == 0 then None
    else if Text.Contains(q, "top") && Text.Contains(q, "author") then Some(AuthorRanking(CountParam(q)))
    else if Text.Contains(q, "most popular author") then Some(PopularAuthor)
    else if Text.Contains(q, "quote") then Some(QuoteList(CountParam(q)))
    else if Text.Contains(q, "tag") then Some(TagRanking)
    else Some(Unrecognized)
  }

  /** One step of the cascade: all keywords must occur; `make` builds the
      intent from the lower-cased query. */
  datatype Rule = Rule(keywords: seq<string>, make: string -> Intent)

  /** The cascade as data, in the order the page tests it. */
  function Rules(): seq<Rule> {
    [ Rule(["top", "author"], q => AuthorRanking(CountParam(q))),
      Rule(["most popular author"], q => PopularAuthor),
      Rule(["quote"], q => QuoteList(CountParam(q))),
      Rule(["tag"], q => TagRanking) ]
  }

  predicate Fires(rule: Rule, q: string) {
    forall k :: 0 <= k < |rule.keywords| ==> Text.Contains(q, rule.keywords[k])
  }

  /** First-match evaluation of an ordered rule list. */
  function FirstMatch(rules: seq<Rule>, q: string): Intent
  {
    if |rules| == 0 then Unrecognized
    else if Fires(rules[0], q) then rules[0].make(q)
    else FirstMatch(rules[1..], q)
  }

  /** The cascade and the rule table classify every non-empty query alike. */
  lemma ClassifyIsFirstMatch(rawQuery: string)
    requires |rawQuery| > 0
    ensures Classify(rawQuery) == Some(FirstMatch(Rules(), Text.Lower(rawQuery)))
  {
    var q := Text.Lower(rawQuery);
    var rs := Rules();
    assert rs[0].keywords[0] == "top" && rs[0].keywords[1] == "author";
    assert Fires(rs[0], q) <==> Text.Contains(q, "top") && Text.Contains(q, "author");
    assert rs[1].keywords[0] == "most popular author";
    assert Fires(rs[1], q) <==> Text.Contains(q, "most popular author");
    assert rs[2].keywords[0] == "quote";
    assert Fires(rs[2], q) <==> Text.Contains(q, "quote");
    assert rs[3].keywords[0] == "tag";
    assert Fires(rs[3], q) <==> Text.Contains(q, "tag");
    var r1 := rs[1..];
    var r2 := r1[1..];
    var r3 := r2[1..];
    assert r1[0] == rs[1] && r2[0] == rs[2] && r3[0] == rs[3] && |r3[1..]| == 0;
    assert FirstMatch(r3, q) == if Fires(rs[3], q) then TagRanking else Unrecognized;
    assert FirstMatch(r2, q) == if Fires(rs[2], q) then QuoteList(CountParam(q)) else FirstMatch(r3, q);
    assert FirstMatch(r1, q) == if Fires(rs[1], q) then PopularAuthor else FirstMatch(r2, q);
    assert FirstMatch(rs, q) == if Fires(rs[0], q) then AuthorRanking(CountParam(q)) else FirstMatch(r1, q);
  }

  /** "top" together with "author" wins over every later keyword. */
  lemma TopAuthorWins(rawQuery: string)
    requires Text.Contains(Text.Lower(rawQuery), "top") && Text.Contains(Text.Lower(rawQuery), "author")
    ensures Classify(rawQuery) == Some(AuthorRanking(CountParam(rawQuery)))
  {
    Text.DigitsLower(rawQuery);
  }

  /** The popular-author phrase contains "author", so that intent is only
      reached by queries without "top". */
  lemma PopularAuthorExcludesTop(rawQuery: string)
    requires Classify(rawQuery) == Some(PopularAuthor)
    ensures !Text.Contains(Text.Lower(rawQuery), "top")
    ensures Text.Contains(Text.Lower(rawQuery), "author")
  {
    var q := Text.Lower(rawQuery);
    assert Text.Contains(q, "most popular author");
    PhraseMentionsAuthor();
    Text.ContainsTransitive(q, "most popular author", "author");
  }

  lemma PhraseMentionsAuthor()
    ensures Text.Contains("most popular author", "author")
  {
    var s := "most popular author";
    assert s[13..19] == "author";
    assert Text.OccursAt(s, "author", 13);
    Text.ContainsIff(s, "author");
  }

  /** A non-empty query is unrecognized exactly when none of the four tests
      passes. */
  lemma UnrecognizedIff(rawQuery: string)
    requires |rawQuery| > 0
    ensures Classify(rawQuery) == Some(Unrecognized) <==>
      var q := Text.Lower(rawQuery);
      && !(Text.Contains(q, "top") && Text.Contains(q, "author"))
      && !Text.Contains(q, "most popular author")
      && !Text.Contains(q, "quote")
      && !Text.Contains(q, "tag")
  {
  }

  /** The answer the page produces for a query over the quotes table. */
  function Interpret(quotes: seq<Tables.QuoteRecord>, rawQuery: string): (r: Response)
    ensures r == Silent <==> |rawQuery| == 0
    ensures r == EmptySeriesError <==> Classify(rawQuery) == Some(PopularAuthor) && |quotes| == 0
    ensures r == CountTooLong <==>
      Classify(rawQuery).Some? && ReadsCount(Classify(rawQuery).value) && !CountReadable(rawQuery)
  {
    // Lower-casing keeps the digits, so the raw query's digits are the ones
    // `int` is given.
    match Classify(rawQuery)
    case None => Silent
    case Some(intent) =>
      if ReadsCount(intent) && !CountReadable(rawQuery) then CountTooLong
      else Respond(quotes, intent)
  }

  /** The branch of the page for an intent whose count, if any, was read. */
  function Respond(quotes: seq<Tables.QuoteRecord>, intent: Intent): (r: Response)
    ensures r != Silent && r != CountTooLong
    ensures r == EmptySeriesError <==> intent == PopularAuthor && |quotes| == 0
  {
    match intent
    case AuthorRanking(n) => Shown(AuthorChart(Counting.TopN(Tables.AuthorColumn(quotes), n)))
    case PopularAuthor =>
      (match Counting.MostFrequent(Tables.AuthorColumn(quotes))
       case None => EmptySeriesError
       case Some(e) => Shown(PopularAuthorBanner(e.key, e.count)))
    case QuoteList(n) => Shown(QuoteTable(Counting.Head(quotes, n)))
    case TagRanking => Shown(TagChart(Counting.TopN(Tables.TagTokens(quotes), TagChartSize)))
    case Unrecognized => Shown(Hint)
  }

  /** The number of distinct authors among the quote rows. */
  function DistinctAuthors(quotes: seq<Tables.QuoteRecord>): nat {
    |Counting.Values(Tables.AuthorColumn(quotes))|
  }

  /** An author-ranking query charts min(n, distinct authors) authors, most
      quoted first, each with the number of rows that name it; a count too
      long for `int` raises instead. */
  lemma AuthorRankingSpec(quotes: seq<Tables.QuoteRecord>, rawQuery: string, n: nat)
    requires Classify(rawQuery) == Some(AuthorRanking(n))
    ensures !CountReadable(rawQuery) ==> Interpret(quotes, rawQuery) == CountTooLong
    ensures CountReadable(rawQuery) ==> Interpret(quotes, rawQuery).Shown? && Interpret(quotes, rawQuery).answer.AuthorChart?
    ensures CountReadable(rawQuery) ==>
      var chart := Interpret(quotes, rawQuery).answer.authors;
      && |chart| == Counting.Min(n, DistinctAuthors(quotes))
      && Counting.NonIncreasing(chart)
      && Counting.Distinct(Counting.Keys(chart))
      && (forall i :: 0 <= i < |chart| ==> chart[i].count == Tables.QuotesBy(quotes, chart[i].key))
      && (forall i, j :: 0 <= i < |chart| && 0 <= j < |quotes| && quotes[j].author !in Counting.Keys(chart) ==>
            Tables.QuotesBy(quotes, quotes[j].author) <= chart[i].count)
  {
    var col := Tables.AuthorColumn(quotes);
    var chart := Counting.TopN(col, n);
    forall i | 0 <= i < |chart| ensures chart[i].count == Tables.QuotesBy(quotes, chart[i].key) {
      Tables.AuthorCountIsRowCount(quotes, chart[i].key);
    }
    forall i, j | 0 <= i < |chart| && 0 <= j < |quotes| && quotes[j].author !in Counting.Keys(chart)
      ensures Tables.QuotesBy(quotes, quotes[j].author) <= chart[i].count
    {
      assert col[j] == quotes[j].author;
      Tables.AuthorCountIsRowCount(quotes, quotes[j].author);
    }
  }

  /** The popular-author banner names an author of greatest row count with
      that count; on an empty table the lookup raises instead. */
  lemma PopularAuthorSpec(quotes: seq<Tables.QuoteRecord>, rawQuery: string)
    requires Classify(rawQuery) == Some(PopularAuthor)
    ensures |quotes| == 0 ==> Interpret(quotes, rawQuery) == EmptySeriesError
    ensures |quotes| > 0 ==> Interpret(quotes, rawQuery).Shown? && Interpret(quotes, rawQuery).answer.PopularAuthorBanner?
    ensures |quotes| > 0 ==>
      var banner := Interpret(quotes, rawQuery).answer;
      && (exists j :: 0 <= j < |quotes| && quotes[j].author == banner.author)
      && banner.count == Tables.QuotesBy(quotes, banner.author)
      && (forall j :: 0 <= j < |quotes| ==> Tables.QuotesBy(quotes, quotes[j].author) <= banner.count)
  {
    assert Interpret(quotes, rawQuery) == Respond(quotes, PopularAuthor);
    if |quotes| > 0 {
      PopularBanner(quotes);
    }
  }

  /** The banner branch over a non-empty table. */
  lemma PopularBanner(quotes: seq<Tables.QuoteRecord>)
    requires |quotes| > 0
    ensures Respond(quotes, PopularAuthor).Shown? && Respond(quotes, PopularAuthor).answer.PopularAuthorBanner?
    ensures var banner := Respond(quotes, PopularAuthor).answer;
      && (exists j :: 0 <= j < |quotes| && quotes[j].author == banner.author)
      && banner.count == Tables.QuotesBy(quotes, banner.author)
      && (forall j :: 0 <= j < |quotes| ==> Tables.QuotesBy(quotes, quotes[j].author) <= banner.count)
  {
    var col := Tables.AuthorColumn(quotes);
    var e := Counting.MostFrequent(col).value;
    assert Respond(quotes, PopularAuthor) == Shown(PopularAuthorBanner(e.key, e.count));
    Tables.AuthorCountIsRowCount(quotes, e.key);
    var k :| 0 <= k < |col| && col[k] == e.key;
    assert quotes[k].author == e.key;
    forall j | 0 <= j < |quotes| ensures Tables.QuotesBy(quotes, quotes[j].author) <= e.count {
      assert col[j] in col;
      Tables.AuthorCountIsRowCount(quotes, quotes[j].author);
    }
  }

  /** A quote-list query shows the first min(n, rows) rows unchanged and in
      stored order, nothing ranked; a count too long for `int` raises
      instead. */
  lemma QuoteListSpec(quotes: seq<Tables.QuoteRecord>, rawQuery: string, n: nat)
    requires Classify(rawQuery) == Some(QuoteList(n))
    ensures !CountReadable(rawQuery) ==> Interpret(quotes, rawQuery) == CountTooLong
    ensures CountReadable(rawQuery) ==> Interpret(quotes, rawQuery).Shown? && Interpret(quotes, rawQuery).answer.QuoteTable?
    ensures CountReadable(rawQuery) ==>
      var rows := Interpret(quotes, rawQuery).answer.rows;
      && |rows| == Counting.Min(n, |quotes|)
      && forall i :: 0 <= i < |rows| ==> rows[i] == quotes[i]
  {
  }

  /** A tag query charts the five most frequent tags (all of them when there
      are fewer), each once, with its number of occurrences among the split
      tag fields, most frequent first; no tag left out occurs more often than
      a charted one. The query's digits are never read, so no count can be
      too long. */
  lemma TagRankingSpec(quotes: seq<Tables.QuoteRecord>, rawQuery: string)
    requires Classify(rawQuery) == Some(TagRanking)
    ensures Interpret(quotes, rawQuery).Shown? && Interpret(quotes, rawQuery).answer.TagChart?
    ensures var chart := Interpret(quotes, rawQuery).answer.tags;
      && |chart| == Counting.Min(TagChartSize, |Counting.Values(Tables.TagTokens(quotes))|)
      && |chart| <= 5
      && Counting.NonIncreasing(chart)
      && Counting.Distinct(Counting.Keys(chart))
      && (forall i :: 0 <= i < |chart| ==> chart[i].key in Tables.TagTokens(quotes))
      && (forall i :: 0 <= i < |chart| ==> chart[i].count == Tables.TagOccurrences(quotes, chart[i].key))
      && (forall i, t :: 0 <= i < |chart| && t in Tables.TagTokens(quotes) && t !in Counting.Keys(chart) ==>
            Tables.TagOccurrences(quotes, t) <= chart[i].count)
  {
    forall t {
      Tables.TagCountIsRowSum(quotes, t);
    }
  }

  /** The digits of a tag query are never read: any two tag queries give the
      same chart. */
  lemma TagRankingIgnoresDigits(quotes: seq<Tables.QuoteRecord>, q1: string, q2: string)
    requires Classify(q1) == Some(TagRanking) && Classify(q2) == Some(TagRanking)
    ensures Interpret(quotes, q1) == Interpret(quotes, q2)
  {
  }

  // ---------------------------------------------------------------------------
  // The cascade, one outcome at a time
  // ---------------------------------------------------------------------------

  /** The popular-author phrase decides only when "top" is absent. */
  lemma PopularAuthorWhen(rawQuery: string)
    requires Text.Contains(Text.Lower(rawQuery), "most popular author")
    requires !Text.Contains(Text.Lower(rawQuery), "top")
    ensures Classify(rawQuery) == Some(PopularAuthor)
  {
  }

  /** "quote" decides once neither author test has passed. */
  lemma QuoteListWhen(rawQuery: string)
    requires Text.Contains(Text.Lower(rawQuery), "quote")
    requires !(Text.Contains(Text.Lower(rawQuery), "top") && Text.Contains(Text.Lower(rawQuery), "author"))
    requires !Text.Contains(Text.Lower(rawQuery), "most popular author")
    ensures Classify(rawQuery) == Some(QuoteList(CountParam(rawQuery)))
  {
    Text.DigitsLower(rawQuery);
  }

  /** "tag" decides only when every earlier test has failed. */
  lemma TagRankingWhen(rawQuery: string)
    requires Text.Contains(Text.Lower(rawQuery), "tag")
    requires !(Text.Contains(Text.Lower(rawQuery), "top") && Text.Contains(Text.Lower(rawQuery), "author"))
    requires !Text.Contains(Text.Lower(rawQuery), "most popular author")
    requires !Text.Contains(Text.Lower(rawQuery), "quote")
    ensures Classify(rawQuery) == Some(TagRanking)
  {
  }

  // ---------------------------------------------------------------------------
  // The sample queries of the input placeholder and of the hint
  // ---------------------------------------------------------------------------

  /** A query already in lower case is its own lower-casing. */
  lemma LowerCaseQuery(q: string)
    requires forall i :: 0 <= i < |q| ==> !Text.IsUpper(q[i])
    ensures Text.Lower(q) == q
  {
  }

  lemma Occurs(s: string, p: string, at: nat)
    requires Text.OccursAt(s, p, at)
    ensures Text.Contains(s, p)
  {
    Text.ContainsIff(s, p);
  }

  lemma SampleTopAuthorsFacts(q: string)
    requires q == "top 5 authors"
    ensures Text.Lower(q) == q && Text.Contains(q, "top") && Text.Contains(q, "author")
  {
    LowerCaseQuery(q);
    Occurs(q, "top", 0);
    Occurs(q, "author", 6);
  }

  lemma SampleTopAuthorsCount(q: string)
    requires q == "top 5 authors"
    ensures CountParam(q) == 5
  {
    CountParamReadsNumber("top ", 5, " authors");
    assert "top " + Text.ShowDecimal(5) + " authors" == q;
  }

  lemma SampleTopAuthors()
    ensures Classify("top 5 authors") == Some(AuthorRanking(5))
  {
    SampleTopAuthorsFacts("top 5 authors");
    SampleTopAuthorsCount("top 5 authors");
    TopAuthorWins("top 5 authors");
  }

  lemma SampleScatteredDigitsFacts(q: string)
    requires q == "Top 1 of 5 Authors"
    ensures Text.Contains(Text.Lower(q), "top") && Text.Contains(Text.Lower(q), "author")
  {
    SampleScatteredDigitsLower(q);
    SampleScatteredDigitsKeywords(Text.Lower(q));
  }

  lemma SampleScatteredDigitsLower(q: string)
    requires q == "Top 1 of 5 Authors"
    ensures Text.Lower(q) == "top 1 of 5 authors"
  {
    var l := Text.Lower(q);
    assert l[0] == 't' && l[11] == 'a';
  }

  lemma SampleScatteredDigitsKeywords(l: string)
    requires l == "top 1 of 5 authors"
    ensures Text.Contains(l, "top") && Text.Contains(l, "author")
  {
    Occurs(l, "top", 0);
    Occurs(l, "author", 11);
  }

  lemma SampleScatteredDigitsCount(q: string)
    requires q == "Top 1 of 5 Authors"
    ensures CountParam(q) == 15
  {
    var left, right := "Top 1", " of 5 Authors";
    assert left + right == q;
    SampleLeft(left);
    SampleRight(right);
    TwoSingleDigits(left, right);
  }

  /** Two parts with one digit each read as a two-digit number. */
  lemma TwoSingleDigits(left: string, right: string)
    requires |Text.Digits(left)| == 1 && |Text.Digits(right)| == 1
    ensures CountParam(left + right) == 10 * CountParam(left) + CountParam(right)
  {
    Text.DigitsAppend(left, right);
    var l, r := Text.Digits(left), Text.Digits(right);
    var ds := Text.Digits(left + right);
    assert ds == l + r;
    assert ds[..1] == l;
    assert l[..0] == r[..0] == "";
    assert CountParam(left) == Text.DigitValue(l[0]);
    assert CountParam(right) == Text.DigitValue(r[0]);
  }

  lemma SampleLeft(q: string)
    requires q == "Top 1"
    ensures CountParam(q) == 1 && |Text.Digits(q)| == 1
  {
    SampleSingleDigit(q, "Top ", 1, "");
  }

  lemma SampleRight(q: string)
    requires q == " of 5 Authors"
    ensures CountParam(q) == 5 && |Text.Digits(q)| == 1
  {
    SampleSingleDigit(q, " of ", 5, " Authors");
  }

  lemma SampleSingleDigit(q: string, a: string, d: nat, b: string)
    requires d < 10
    requires forall i :: 0 <= i < |a| ==> !Text.IsDigit(a[i])
    requires forall i :: 0 <= i < |b| ==> !Text.IsDigit(b[i])
    requires q == a + [Text.DigitChar(d)] + b
    ensures CountParam(q) == d && |Text.Digits(q)| == 1
  {
    CountParamReadsNumber(a, d, b);
    Text.NoDigitsIff(a);
    Text.NoDigitsIff(b);
    assert Text.ShowDecimal(d) == [Text.DigitChar(d)];
    Text.DigitsAppend(a + [Text.DigitChar(d)], b);
    Text.DigitsAppend(a, [Text.DigitChar(d)]);
  }

  /** Upper case is folded and the scattered digits 1 and 5 read as 15. */
  lemma SampleScatteredDigits()
    ensures Classify("Top 1 of 5 Authors") == Some(AuthorRanking(15))
  {
    SampleScatteredDigitsFacts("Top 1 of 5 Authors");
    SampleScatteredDigitsCount("Top 1 of 5 Authors");
    TopAuthorWins("Top 1 of 5 Authors");
  }

  lemma SamplePopularAuthorFacts(q: string)
    requires q == "most popular author"
    ensures Text.Lower(q) == q && Text.Contains(q, q) && !Text.Contains(q, "top")
  {
    LowerCaseQuery(q);
    Occurs(q, q, 0);
    forall i | 0 <= i < |q| ensures !Text.OccursAt(q, "top", i) {
      if i + 3 <= |q| {
        assert q[i..i + 3][0] == q[i] && q[i..i + 3][1] == q[i + 1];
        assert q[i] != 't' || q[i + 1] != 'o' by {
          assert i == 0 || i == 1 || i == 2 || i == 3 || i == 4 || i == 5 || i == 6 || i == 7 || i == 8
              || i == 9 || i == 10 || i == 11 || i == 12 || i == 13 || i == 14 || i == 15 || i == 16;
        }
      }
    }
    Text.ContainsIff(q, "top");
  }

  lemma SamplePopularAuthor()
    ensures Classify("most popular author") == Some(PopularAuthor)
  {
    SamplePopularAuthorFacts("most popular author");
    PopularAuthorWhen("most popular author");
  }

  /** A short query with neither 'u' nor 'q' passes none of the tests that
      come before the tag test. */
  lemma NoEarlierKeyword(q: string)
    requires 'u' !in q && 'q' !in q && |q| < |"most popular author"|
    ensures !Text.Contains(q, "author") && !Text.Contains(q, "most popular author") && !Text.Contains(q, "quote")
  {
    Text.NotContainsMissingChar(q, "author", 'u');
    Text.ContainsNoLonger(q, "most popular author");
    Text.NotContainsMissingChar(q, "quote", 'q');
  }

  lemma SampleTopTagsFacts(q: string)
    requires q == "top tags"
    ensures Text.Lower(q) == q && Text.Contains(q, "tag")
    ensures !Text.Contains(q, "author") && !Text.Contains(q, "most popular author") && !Text.Contains(q, "quote")
  {
    LowerCaseQuery(q);
    NoEarlierKeyword(q);
    Occurs(q, "tag", 4);
  }

  lemma SampleTopTwentyTagsFacts(q: string)
    requires q == "top 20 tags"
    ensures Text.Lower(q) == q && Text.Contains(q, "tag")
    ensures !Text.Contains(q, "author") && !Text.Contains(q, "most popular author") && !Text.Contains(q, "quote")
  {
    LowerCaseQuery(q);
    NoEarlierKeyword(q);
    Occurs(q, "tag", 7);
  }

  /** The tag chart ignores the query's digits altogether. */
  lemma SampleTopTags()
    ensures Classify("top tags") == Some(TagRanking)
    ensures Classify("top 20 tags") == Some(TagRanking)
  {
    SampleTopTagsFacts("top tags");
    TagRankingWhen("top tags");
    SampleTopTwentyTagsFacts("top 20 tags");
    TagRankingWhen("top 20 tags");
  }

  lemma SampleTopQuotesFacts(q: string)
    requires q == "top 10 quotes"
    ensures Text.Lower(q) == q && Text.Contains(q, "quote")
    ensures !Text.Contains(q, "author") && !Text.Contains(q, "most popular author")
  {
    LowerCaseQuery(q);
    Text.NotContainsMissingChar(q, "author", 'a');
    Text.ContainsNoLonger(q, "most popular author");
    Occurs(q, "quote", 7);
  }

  lemma SampleTopQuotesCount(q: string)
    requires q == "top 10 quotes"
    ensures CountParam(q) == 10
  {
    CountParamReadsNumber("top ", 10, " quotes");
    assert Text.ShowDecimal(10) == "10";
    assert "top " + "10" + " quotes" == q;
  }

  lemma SampleZeroQuotesFacts(q: string)
    requires q == "0 quotes"
    ensures Text.Lower(q) == q && Text.Contains(q, "quote")
    ensures !Text.Contains(q, "author") && !Text.Contains(q, "most popular author")
  {
    LowerCaseQuery(q);
    Text.NotContainsMissingChar(q, "author", 'a');
    Text.ContainsNoLonger(q, "most popular author");
    Occurs(q, "quote", 2);
  }

  lemma SampleZeroQuotesCount(q: string)
    requires q == "0 quotes"
    ensures CountParam(q) == 0
  {
    CountParamReadsNumber("", 0, " quotes");
    assert "" + Text.ShowDecimal(0) + " quotes" == q;
  }

  /** "top" alone does not make a ranking: without "author" the quote test
      decides. A count of zero is kept, and shows no rows. */
  lemma SampleQuotes()
    ensures Classify("top 10 quotes") == Some(QuoteList(10))
    ensures Classify("0 quotes") == Some(QuoteList(0))
  {
    SampleTopQuotesFacts("top 10 quotes");
    SampleTopQuotesCount("top 10 quotes");
    QuoteListWhen("top 10 quotes");
    SampleZeroQuotesFacts("0 quotes");
    SampleZeroQuotesCount("0 quotes");
    QuoteListWhen("0 quotes");
  }

  lemma SampleUnrecognizedFacts(q: string)
    requires q == "banana"
    ensures Text.Lower(q) == q
    ensures !Text.Contains(q, "top") && !Text.Contains(q, "most popular author")
    ensures !Text.Contains(q, "quote") && !Text.Contains(q, "tag")
  {
    LowerCaseQuery(q);
    Text.NotContainsMissingChar(q, "top", 't');
    Text.ContainsNoLonger(q, "most popular author");
    Text.NotContainsMissingChar(q, "quote", 'q');
    Text.NotContainsMissingChar(q, "tag", 't');
  }

  lemma SampleUnrecognized()
    ensures Classify("banana") == Some(Unrecognized)
    ensures Classify("") == None
  {
    SampleUnrecognizedFacts("banana");
    UnrecognizedIff("banana");
  }
}
