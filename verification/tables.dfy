/** The two tables the dashboard loads, as already-parsed rows, and the
    column operations the pages apply to them: dropping missing tags,
    exploding the tag lists, counting distinct tags, and looking an author up
    by name. */
module Tables {

  import opened Optional
  import Text
  import Counting

  /** A row of the quotes table. `tags` is `None` where the reader saw NaN. */
  datatype QuoteRecord = QuoteRecord(quote: string, author: string, tags: Option<string>)

  /** A row of the authors table. */
  datatype AuthorRecord = AuthorRecord(author: string, bornDate: string, bornPlace: string, description: string)

  /** `quotes_df["Author"]`. */
  function AuthorColumn(quotes: seq<QuoteRecord>): (r: seq<string>)
    ensures |r| == |quotes|
    ensures forall i :: 0 <= i < |quotes| ==> r[i] == quotes[i].author
  {
    seq(|quotes|, i requires 0 <= i < |quotes| => quotes[i].author)
  }

  /** The number of quote rows attributed to `a`, counted row by row. */
  function QuotesBy(quotes: seq<QuoteRecord>, a: string): nat {
    if |quotes| == 0 then 0
    else (if quotes[0].author == a then 1 else 0) + QuotesBy(quotes[1..], a)
  }

  /** Counting a value in the author column is counting that author's rows. */
  lemma {:induction false} AuthorCountIsRowCount(quotes: seq<QuoteRecord>, a: string)
    ensures multiset(AuthorColumn(quotes))[a] == QuotesBy(quotes, a)
  {
    if |quotes| > 0 {
      assert AuthorColumn(quotes) == [quotes[0].author] + AuthorColumn(quotes[1..]);
      AuthorCountIsRowCount(quotes[1..], a);
    }
  }

  /** `quotes_df["Tags"].dropna().astype(str)`: the present tag fields in row
      order. */
  function PresentTags(quotes: seq<QuoteRecord>): (r: seq<string>)
    ensures |r| <= |quotes|
    ensures |r| == 0 <==> forall i :: 0 <= i < |quotes| ==> quotes[i].tags.None?
  {
    if |quotes| == 0 then []
    else
      (if quotes[0].tags.Some? then [quotes[0].tags.value] else [])
      + PresentTags(quotes[1..])
  }

  /** A string is a present tag field exactly when some row carries it. */
  lemma {:induction false} PresentTagsMembers(quotes: seq<QuoteRecord>, s: string)
    ensures s in PresentTags(quotes) <==> exists i :: 0 <= i < |quotes| && quotes[i].tags == Some(s)
  {
    if |quotes| > 0 {
      PresentTagsMembers(quotes[1..], s);
      if s in PresentTags(quotes[1..]) {
        var i :| 0 <= i < |quotes| - 1 && quotes[1..][i].tags == Some(s);
        assert quotes[i + 1].tags == Some(s);
      }
      if exists i :: 0 <= i < |quotes| && quotes[i].tags == Some(s) {
        var i :| 0 <= i < |quotes| && quotes[i].tags == Some(s);
        if i > 0 {
          assert quotes[1..][i - 1].tags == Some(s);
        }
      }
    }
  }

  /** `.str.split(", ").explode()` over the present tag fields: every tag
      token of every tagged row, in row order. */
  function TagTokens(quotes: seq<QuoteRecord>): seq<string> {
    Text.SplitEach(PresentTags(quotes))
  }

  /** A tag token is a piece of some row's own tag field. */
  lemma TagTokensMembers(quotes: seq<QuoteRecord>, t: string)
    ensures t in TagTokens(quotes) <==>
      exists i :: 0 <= i < |quotes| && quotes[i].tags.Some? && t in Text.Split(quotes[i].tags.value)
  {
    var ps := PresentTags(quotes);
    Text.SplitEachMembers(ps, t);
    if t in TagTokens(quotes) {
      var k :| 0 <= k < |ps| && t in Text.Split(ps[k]);
      PresentTagsMembers(quotes, ps[k]);
      var i :| 0 <= i < |quotes| && quotes[i].tags == Some(ps[k]);
      assert quotes[i].tags.Some? && t in Text.Split(quotes[i].tags.value);
    }
    if exists i :: 0 <= i < |quotes| && quotes[i].tags.Some? && t in Text.Split(quotes[i].tags.value) {
      var i :| 0 <= i < |quotes| && quotes[i].tags.Some? && t in Text.Split(quotes[i].tags.value);
      PresentTagsMembers(quotes, quotes[i].tags.value);
      var k :| 0 <= k < |ps| && ps[k] == quotes[i].tags.value;
      assert t in Text.Split(ps[k]);
    }
  }

  /** The occurrences of tag `t`, summed row by row over the tagged rows. */
  function TagOccurrences(quotes: seq<QuoteRecord>, t: string): nat {
    if |quotes| == 0 then 0
    else
      (match quotes[0].tags
       case Some(s) => multiset(Text.Split(s))[t]
       case None => 0)
      + TagOccurrences(quotes[1..], t)
  }

  /** Counting a token of the exploded column is summing its per-row counts. */
  lemma {:induction false} TagCountIsRowSum(quotes: seq<QuoteRecord>, t: string)
    ensures multiset(TagTokens(quotes))[t] == TagOccurrences(quotes, t)
  {
    if |quotes| > 0 {
      TagCountIsRowSum(quotes[1..], t);
      var rest := PresentTags(quotes[1..]);
      match quotes[0].tags
      case Some(s) =>
        assert PresentTags(quotes) == [s] + rest;
        assert ([s] + rest)[1..] == rest;
      case None =>
        assert PresentTags(quotes) == rest;
    }
  }

  /** The "Total Tags" figure: the present tag fields are joined with ", ",
      the result is split on ", ", and the distinct pieces are counted. */
  function DistinctTagCount(quotes: seq<QuoteRecord>): nat {
    |Counting.Values(Text.Split(Text.Join(PresentTags(quotes))))|
  }

  /** With at least one tagged row the figure is the number of distinct tag
      tokens over all rows; with none it is 1, the lone empty piece of
      splitting the empty string. */
  lemma DistinctTagCountSpec(quotes: seq<QuoteRecord>)
    ensures (exists i :: 0 <= i < |quotes| && quotes[i].tags.Some?) ==>
      DistinctTagCount(quotes) == |Counting.Values(TagTokens(quotes))|
    ensures (forall i :: 0 <= i < |quotes| ==> quotes[i].tags.None?) ==>
      DistinctTagCount(quotes) == 1
  {
    var ps := PresentTags(quotes);
    if |ps| == 0 {
      Text.SplitJoinEmpty();
      assert Counting.Values([""]) == {""};
    } else {
      Text.SplitJoin(ps);
    }
  }

  /** Position of the first authors row named `name`, if any. */
  function FirstAuthorIndex(authors: seq<AuthorRecord>, name: string): (r: Option<nat>)
    ensures r.None? <==> forall i :: 0 <= i < |authors| ==> authors[i].author != name
    ensures r.Some? ==> r.value < |authors| && authors[r.value].author == name
    ensures r.Some? ==> forall j :: 0 <= j < r.value ==> authors[j].author != name
  {
    if |authors| == 0 then None
    else if authors[0].author == name then Some(0)
    else
      match FirstAuthorIndex(authors[1..], name)
      case None => None
      case Some(k) => Some(k + 1)
  }

  /** `authors_df[authors_df["Author"] == name].iloc[0]`: the first row with
      that name. `None` where pandas raises for want of a row. */
  function FindAuthor(authors: seq<AuthorRecord>, name: string): (r: Option<AuthorRecord>)
    ensures r.None? <==> forall i :: 0 <= i < |authors| ==> authors[i].author != name
    ensures r.Some? ==> r.value.author == name && r.value in authors
    ensures r.Some? ==>
      exists k :: 0 <= k < |authors| && authors[k] == r.value && (forall j :: 0 <= j < k ==> authors[j].author != name)
  {
    match FirstAuthorIndex(authors, name)
    case None => None
    case Some(k) => Some(authors[k])
  }

  /** `authors_df["Author"].unique()`: the names offered by the picker. */
  function AuthorChoices(authors: seq<AuthorRecord>): (r: seq<string>)
    ensures Counting.Distinct(r)
    ensures forall a :: a in r <==> exists i :: 0 <= i < |authors| && authors[i].author == a
  {
    var names := seq(|authors|, i requires 0 <= i < |authors| => authors[i].author);
    var r := Counting.Dedup(names);
    assert forall a :: a in names <==> exists i :: 0 <= i < |authors| && authors[i].author == a by {
      forall a | a in names ensures exists i :: 0 <= i < |authors| && authors[i].author == a {
        var i :| 0 <= i < |names| && names[i] == a;
        assert authors[i].author == a;
      }
      forall a | exists i :: 0 <= i < |authors| && authors[i].author == a ensures a in names {
        var i :| 0 <= i < |authors| && authors[i].author == a;
        assert names[i] == a;
      }
    }
    r
  }

  /** Every name the picker offers finds its row, so the lookup never fails
      on a selection. */
  lemma ChoicesResolve(authors: seq<AuthorRecord>, name: string)
    requires name in AuthorChoices(authors)
    ensures FindAuthor(authors, name).Some?
    ensures FindAuthor(authors, name).value.author == name
  {
  }
}
