/**
 The search box on a page: the index built when the page has loaded, and
 the results panel, which is either hidden or active and holds some
 content. The input and click handlers are methods; `hasInput` records
 whether the page has a search input at all, since without one neither the
 index is built nor any handler installed.
 */
module Page {
  import opened Text
  import opened Index
  import opened Search
  import opened Display

  /** Queries shorter than this, once trimmed, clear the panel. */
  const MinQueryLength: nat := 2

  class SearchPage {
    const hasInput: bool
    var index: seq<Entry>
    var active: bool
    var content: Content

    /** Whenever the panel is active it shows something; the placeholder is
        the "No results found" text; a list of items holds one to five
        items, each rendered from a record of the index. */
    ghost predicate Valid()
      reads this
    {
      && (active ==> !content.Blank?)
      && (content.Placeholder? ==> content.message == NoResultsMessage)
      && (content.Items? ==> 0 < |content.items| <= MaxResults)
      && (content.Items? ==> forall it :: it in content.items ==> exists e :: e in index && ItemOf(e) == it)
    }

    /** The page has loaded: with a search input the index is scraped from
        `posts`; the panel starts hidden and blank. */
    constructor (hasInput: bool, posts: seq<Post>)
      ensures Valid()
      ensures this.hasInput == hasInput
      ensures index == if hasInput then IndexOf(posts) else []
      ensures !active && content == Blank
    {
      this.hasInput := hasInput;
      index := [];
      active := false;
      content := Blank;
      new;
      if hasInput {
        BuildSearchIndex(posts);
      }
    }

    /** Appends one record per post that has a title link, in document
        order; the panel is left alone. */
    method BuildSearchIndex(posts: seq<Post>)
      requires Valid()
      modifies this`index
      ensures Valid()
      ensures index == old(index) + IndexOf(posts)
    {
      var i := 0;
      while i < |posts|
        invariant 0 <= i <= |posts|
        invariant index == old(index) + IndexOf(posts[..i])
        invariant Valid()
      {
        var post := posts[i];
        if post.link.Some? {
          var link := post.link.value;
          var summary := if post.summary.Some? then post.summary.value else "";
          index := index + [Entry(link.text, link.href, summary, post.tags)];
        }
        assert posts[..i + 1][..i] == posts[..i];
        i := i + 1;
      }
      assert posts[..i] == posts;
    }

    /** The handler for an edit of the search input holding `value`. A
        query under two characters hides and clears the panel without
        consulting the index; a longer one renders its search results and
        activates the panel. The index never changes. */
    method OnInput(value: string)
      requires Valid()
      modifies this`active, this`content
      ensures Valid()
      ensures !hasInput ==> active == old(active) && content == old(content)
      ensures hasInput && |NormalizeQuery(value)| < MinQueryLength ==> !active && content == Blank
      ensures hasInput && |NormalizeQuery(value)| >= MinQueryLength ==>
        active && content == Render(SearchPosts(index, NormalizeQuery(value)))
    {
      if !hasInput {
        return;
      }
      var query := NormalizeQuery(value);
      if |query| < MinQueryLength {
        HideResults();
      } else {
        ShowResults(query);
      }
    }

    /** The short-query branch of the input handler: the panel is hidden and
        emptied. */
    method HideResults()
      requires Valid()
      modifies this`active, this`content
      ensures Valid()
      ensures !active && content == Blank
    {
      active := false;
      content := Blank;
    }

    /** The long-query branch of the input handler: the search results for
        `query` are displayed. */
    method ShowResults(query: string)
      requires Valid()
      modifies this`active, this`content
      ensures Valid()
      ensures active && content == Render(SearchPosts(index, query))
    {
      var results := SearchPosts(index, query);
      DisplayResults(results);
      RenderDrawsFrom(results, index);
    }

    /** `displayResults`: shows the rendering of `results` and activates
        the panel. */
    method DisplayResults(results: seq<Entry>)
      modifies this`active, this`content
      ensures active && content == Render(results)
    {
      if |results| == 0 {
        content := Placeholder(NoResultsMessage);
        active := true;
        return;
      }
      content := Items(RenderItems(results));
      active := true;
    }

    /** The handler for a click anywhere on the page: a click outside both
        the input and the panel hides the panel, keeping its content; any
        other click changes nothing. */
    method OnClick(inInput: bool, inPanel: bool)
      requires Valid()
      modifies this`active
      ensures Valid()
      ensures active == (old(active) && (!hasInput || inInput || inPanel))
    {
      if hasInput && !inInput && !inPanel {
        active := false;
      }
    }
  }
}
