/**
 The search index and how it is scraped from the page. A rendered post card
 is abstracted to what the scraper reads from it: the text and resolved
 address of its title link (absent when the card has no `h2 a` / `h3 a`),
 the text of its summary element (absent when there is none) and the texts
 of its tag elements, in document order.
 */
module Index {
  import opened Seqs

  datatype Option<T> = None | Some(value: T)

  datatype Link = Link(text: string, href: string)

  datatype Post = Post(link: Option<Link>, summary: Option<string>, tags: seq<string>)

  /** One searchable record of the index. */
  datatype Entry = Entry(title: string, url: string, summary: string, tags: seq<string>)

  predicate HasLink(p: Post) {
    p.link.Some?
  }

  /** The record pushed for a post that has a title link: the link's text
      and address, the summary or "" when the post has none, and the tags. */
  function EntryOf(p: Post): (e: Entry)
    requires HasLink(p)
    ensures e.title == p.link.value.text && e.url == p.link.value.href
    ensures p.summary.None? ==> e.summary == ""
    ensures p.summary.Some? ==> e.summary == p.summary.value
    ensures e.tags == p.tags
  {
    Entry(p.link.value.text, p.link.value.href,
          if p.summary.Some? then p.summary.value else "", p.tags)
  }

  /** What one visit of the scraping loop appends to the index. */
  function Contribution(p: Post): seq<Entry> {
    if HasLink(p) then [EntryOf(p)] else []
  }

  /** The records the scraping loop appends for `posts`, visited in order. */
  function IndexOf(posts: seq<Post>): (r: seq<Entry>)
    ensures |r| <= |posts|
  {
    if posts == [] then []
    else IndexOf(posts[..|posts| - 1]) + Contribution(posts[|posts| - 1])
  }

  /** The positions of the posts that have a title link, in document order. */
  ghost function LinkedPositions(posts: seq<Post>): (ps: seq<nat>)
  {
    if posts == [] then []
    else
      var n := |posts| - 1;
      LinkedPositions(posts[..n]) + if HasLink(posts[n]) then [n] else []
  }

  /** The linked positions are increasing and are exactly the posts with a link. */
  lemma {:induction false} LinkedPositionsSpec(posts: seq<Post>)
    ensures Increasing(LinkedPositions(posts))
    ensures forall k :: 0 <= k < |LinkedPositions(posts)| ==> LinkedPositions(posts)[k] < |posts|
    ensures forall i :: i in LinkedPositions(posts) <==> 0 <= i < |posts| && HasLink(posts[i])
  {
    if posts != [] {
      var n := |posts| - 1;
      LinkedPositionsSpec(posts[..n]);
      forall i | 0 <= i < n ensures posts[..n][i] == posts[i] { }
    }
  }

  /** The k-th record of the index comes from the k-th post that has a link:
      its title and url are the link's, its summary is the post's summary or
      "" when the post has none, and its tags are the post's tags. */
  lemma {:induction false} IndexOfAt(posts: seq<Post>)
    ensures |IndexOf(posts)| == |LinkedPositions(posts)|
    ensures forall k :: 0 <= k < |IndexOf(posts)| ==>
      LinkedPositions(posts)[k] < |posts| && HasLink(posts[LinkedPositions(posts)[k]]) &&
      IndexOf(posts)[k] == EntryOf(posts[LinkedPositions(posts)[k]])
  {
    if posts != [] {
      var n := |posts| - 1;
      IndexOfAt(posts[..n]);
      LinkedPositionsSpec(posts[..n]);
    }
  }

  /** Scraping two stretches of the document one after the other gives the
      index of the whole: records stay in document order. */
  lemma {:induction false} IndexOfAppend(a: seq<Post>, b: seq<Post>)
    ensures IndexOf(a + b) == IndexOf(a) + IndexOf(b)
    decreases |b|
  {
    if b == [] {
      assert a + b == a;
    } else {
      var n := |b| - 1;
      assert (a + b)[..|a + b| - 1] == a + b[..n];
      IndexOfAppend(a, b[..n]);
    }
  }

  /** A post without a title link adds nothing; a post with one adds exactly
      its record, with "" in place of a missing summary. */
  lemma IndexOfOne(p: Post)
    ensures !HasLink(p) ==> IndexOf([p]) == []
    ensures HasLink(p) ==> IndexOf([p]) == [Entry(p.link.value.text, p.link.value.href,
                                                 if p.summary.Some? then p.summary.value else "", p.tags)]
    ensures HasLink(p) && p.summary.None? ==> IndexOf([p])[0].summary == ""
  {
    assert [p][..0] == [];
  }

  /** A page whose posts have no title links yields an empty index. */
  lemma {:induction false} IndexOfNoLinks(posts: seq<Post>)
    requires forall i :: 0 <= i < |posts| ==> !HasLink(posts[i])
    ensures IndexOf(posts) == []
  {
    if posts != [] {
      var n := |posts| - 1;
      IndexOfNoLinks(posts[..n]);
    }
  }

  /** There is one record per post with a title link. */
  lemma IndexOfCount(posts: seq<Post>)
    ensures |IndexOf(posts)| == |set i | 0 <= i < |posts| && HasLink(posts[i])|
  {
    IndexOfAt(posts);
    LinkedPositionsSpec(posts);
    var ps := LinkedPositions(posts);
    assert (set i | 0 <= i < |posts| && HasLink(posts[i])) == set k | 0 <= k < |ps| :: ps[k];
    DistinctCard(ps);
  }
}
