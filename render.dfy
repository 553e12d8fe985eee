/**
 What the results panel shows for a list of search results. The markup and
 inline styles are left aside: the panel's content is either blank, the
 "No results found" placeholder, or one link item per result holding the
 result's address, title and shortened summary, in result order.
 */
module Display {
  import opened Seqs
  import opened Index
  import opened Search

  /** How many characters of a summary an item shows. */
  const SummaryLength: nat := 100

  const Ellipsis: string := "..."

  const NoResultsMessage: string := "No results found"

  datatype Item = Item(url: string, title: string, summary: string)

  datatype Content = Blank | Placeholder(message: string) | Items(items: seq<Item>)

  /** The summary line of an item: `summary.substring(0, 100)` followed by
      "...", whatever the length of the summary. */
  function Summarize(summary: string): (r: string)
    ensures |r| == (if |summary| <= SummaryLength then |summary| else SummaryLength) + |Ellipsis|
    ensures r[..|r| - |Ellipsis|] == summary[..|r| - |Ellipsis|]
    ensures r[|r| - |Ellipsis|..] == Ellipsis
  {
    Take(summary, SummaryLength) + Ellipsis
  }

  /** A summary of at most 100 characters is shown whole, still followed by
      "..."; a longer one is cut to exactly its first 100 characters. */
  lemma SummarizeCases(summary: string)
    ensures |summary| <= SummaryLength ==> Summarize(summary) == summary + Ellipsis
    ensures |summary| > SummaryLength ==>
      |Summarize(summary)| == SummaryLength + |Ellipsis| &&
      Summarize(summary) == summary[..SummaryLength] + Ellipsis
  {
  }

  /** The item rendered for one result: a link to its url, its title, and
      its summary line. */
  function ItemOf(e: Entry): (it: Item)
    ensures it.url == e.url && it.title == e.title
    ensures it.summary == Summarize(e.summary)
  {
    Item(e.url, e.title, Summarize(e.summary))
  }

  /** The items rendered for the results, in result order. */
  function RenderItems(results: seq<Entry>): (r: seq<Item>)
    ensures |r| == |results|
    ensures forall k :: 0 <= k < |results| ==> r[k] == ItemOf(results[k])
  {
    if results == [] then [] else [ItemOf(results[0])] + RenderItems(results[1..])
  }

  /** What `displayResults` puts in the panel. */
  function Render(results: seq<Entry>): (c: Content)
    ensures c.Placeholder? <==> results == []
    ensures c.Placeholder? ==> c.message == NoResultsMessage
    ensures c.Items? ==> |c.items| == |results|
    ensures c.Items? ==> forall k :: 0 <= k < |results| ==> c.items[k] == ItemOf(results[k])
    ensures !c.Blank?
  {
    if results == [] then Placeholder(NoResultsMessage) else Items(RenderItems(results))
  }

  /** The panel after a search shows the placeholder exactly when no record
      matches, and otherwise between one and five items, the k-th rendered
      from the record at the k-th match position. */
  lemma RenderSearch(index: seq<Entry>, query: string)
    ensures var c := Render(SearchPosts(index, query));
            c.Placeholder? <==> forall i :: 0 <= i < |index| ==> !Matches(index[i], query)
    ensures var c := Render(SearchPosts(index, query));
            c.Items? ==> 1 <= |c.items| <= MaxResults
    ensures var c := Render(SearchPosts(index, query));
            var ps := MatchPositions(index, query);
            c.Items? ==> forall k :: 0 <= k < |c.items| ==>
              k < |ps| && ps[k] < |index| && c.items[k] == ItemOf(index[ps[k]])
  {
    SearchPostsFirstMatches(index, query);
    MatchPositionsSpec(index, query);
    var ps := MatchPositions(index, query);
    if ps != [] {
      assert ps[0] in ps;
    }
  }

  /** Every item rendered from records of `index` is the item of one of them. */
  lemma RenderDrawsFrom(results: seq<Entry>, index: seq<Entry>)
    requires forall e :: e in results ==> e in index
    ensures var c := Render(results);
            c.Items? ==> forall it :: it in c.items ==> exists e :: e in index && ItemOf(e) == it
  {
    var c := Render(results);
    if c.Items? {
      forall it | it in c.items ensures exists e :: e in index && ItemOf(e) == it {
        var k :| 0 <= k < |c.items| && c.items[k] == it;
        assert results[k] in results;
      }
    }
  }

  /** With an empty index every query renders the placeholder. */
  lemma RenderEmptyIndex(query: string)
    ensures Render(SearchPosts([], query)) == Placeholder(NoResultsMessage)
  {
  }
}
