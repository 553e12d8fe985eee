/**
 The query filter: which records of the index a query selects, and in what
 order. The filter keeps the records whose lower-cased title, summary or
 one of whose lower-cased tags contains the query, then caps the result at
 the first five in index order.
 */
module Search {
  import opened Text
  import opened Seqs
  import opened Index

  /** The most records one search returns. */
  const MaxResults: nat := 5

  /** The query as the input handler hands it to the filter: the input's
      value trimmed, then lower-cased. */
  function NormalizeQuery(value: string): (q: string)
    ensures ToLower(q) == q
    ensures exists k :: TrimmedAt(ToLower(value), q, k)
    ensures q == [] || (!IsSpace(q[0]) && !IsSpace(q[|q| - 1]))
  {
    TrimLower(value);
    ToLowerIdempotent(Trim(value));
    ToLower(Trim(value))
  }

  /** The searchable fields of a record: its title, its summary and its tags. */
  function Fields(e: Entry): seq<string> {
    [e.title, e.summary] + e.tags
  }

  /** Some field, lower-cased, contains the query. */
  predicate AnyFieldContains(fields: seq<string>, query: string) {
    exists j :: 0 <= j < |fields| && Contains(ToLower(fields[j]), query)
  }

  /** The filter's test for one record: its lower-cased title, its
      lower-cased summary or some lower-cased tag contains the query. Put
      differently, some searchable field contains it once lower-cased. */
  predicate Matches(e: Entry, query: string): (b: bool)
    ensures b <==> AnyFieldContains(Fields(e), query)
  {
    var fields := Fields(e);
    assert fields[0] == e.title && fields[1] == e.summary;
    assert forall i :: 0 <= i < |e.tags| ==> fields[i + 2] == e.tags[i];
    assert forall j :: 2 <= j < |fields| ==> fields[j] == e.tags[j - 2];
    || Contains(ToLower(e.title), query)
    || Contains(ToLower(e.summary), query)
    || exists i :: 0 <= i < |e.tags| && Contains(ToLower(e.tags[i]), query)
  }

  /** The records of `index` that match, in index order. */
  function Matching(index: seq<Entry>, query: string): (r: seq<Entry>)
    ensures |r| <= |index|
    ensures forall e :: e in r ==> e in index && Matches(e, query)
  {
    if index == [] then []
    else
      var n := |index| - 1;
      Matching(index[..n], query) + if Matches(index[n], query) then [index[n]] else []
  }

  /** The result of a search: the first `MaxResults` matching records. */
  function SearchPosts(index: seq<Entry>, query: string): (r: seq<Entry>)
    ensures |r| <= MaxResults
    ensures forall e :: e in r ==> e in index && Matches(e, query)
  {
    Take(Matching(index, query), MaxResults)
  }

  /** The positions of the matching records, in index order. */
  ghost function MatchPositions(index: seq<Entry>, query: string): seq<nat>
  {
    if index == [] then []
    else
      var n := |index| - 1;
      MatchPositions(index[..n], query) + if Matches(index[n], query) then [n] else []
  }

  /** The match positions are increasing and are exactly the positions of the
      records that match. */
  lemma {:induction false} MatchPositionsSpec(index: seq<Entry>, query: string)
    ensures Increasing(MatchPositions(index, query))
    ensures forall k :: 0 <= k < |MatchPositions(index, query)| ==> MatchPositions(index, query)[k] < |index|
    ensures forall i :: i in MatchPositions(index, query) <==> 0 <= i < |index| && Matches(index[i], query)
  {
    if index != [] {
      var n := |index| - 1;
      var front := index[..n];
      var keep := Matches(index[n], query);
      MatchPositionsSpec(front, query);
      var ps0 := MatchPositions(front, query);
      var ps := ps0 + if keep then [n] else [];
      assert MatchPositions(index, query) == ps;
      assert forall k :: 0 <= k < |ps0| ==> ps0[k] < n;
      forall i | 0 <= i < n ensures front[i] == index[i] { }
      forall i ensures i in ps <==> 0 <= i < |index| && Matches(index[i], query) {
        assert i in ps <==> i in ps0 || (keep && i == n);
      }
    }
  }

  /** The filtered sequence is the subsequence of the index at the match
      positions. */
  lemma {:induction false} MatchingAt(index: seq<Entry>, query: string)
    ensures SubsequenceAt(Matching(index, query), index, MatchPositions(index, query))
  {
    MatchPositionsSpec(index, query);
    if index != [] {
      var n := |index| - 1;
      var front := index[..n];
      var keep := Matches(index[n], query);
      MatchingAt(front, query);
      var m0, ps0 := Matching(front, query), MatchPositions(front, query);
      assert Matching(index, query) == m0 + if keep then [index[n]] else [];
      assert MatchPositions(index, query) == ps0 + if keep then [n] else [];
      forall k | 0 <= k < |ps0| ensures ps0[k] < n && m0[k] == index[ps0[k]] {
        assert front[ps0[k]] == index[ps0[k]];
      }
    }
  }

  /** A search returns the first min(5, number of matches) matching records,
      in index order: the k-th result is the record at the k-th match
      position, so it is a subsequence of the index that skips no match. */
  lemma SearchPostsFirstMatches(index: seq<Entry>, query: string)
    ensures var ps := MatchPositions(index, query);
            |SearchPosts(index, query)| == (if |ps| <= MaxResults then |ps| else MaxResults)
    ensures var ps := MatchPositions(index, query);
            SubsequenceAt(SearchPosts(index, query), index, ps[..|SearchPosts(index, query)|])
  {
    MatchingAt(index, query);
  }

  /** The number of matching records. */
  lemma MatchCount(index: seq<Entry>, query: string)
    ensures |Matching(index, query)| == |set i | 0 <= i < |index| && Matches(index[i], query)|
  {
    MatchingAt(index, query);
    MatchPositionsSpec(index, query);
    var ps := MatchPositions(index, query);
    assert (set i | 0 <= i < |index| && Matches(index[i], query)) == set k | 0 <= k < |ps| :: ps[k];
    DistinctCard(ps);
  }

  /** With at most five matches nothing is cut off: a record is returned
      exactly when it is in the index and matches. */
  lemma SearchPostsAllMatches(index: seq<Entry>, query: string)
    requires |set i | 0 <= i < |index| && Matches(index[i], query)| <= MaxResults
    ensures forall e :: e in SearchPosts(index, query) <==> e in index && Matches(e, query)
  {
    MatchCount(index, query);
    MatchingAt(index, query);
    MatchPositionsSpec(index, query);
    var ps := MatchPositions(index, query);
    var m := Matching(index, query);
    forall e | e in index && Matches(e, query) ensures e in m {
      var i :| 0 <= i < |index| && index[i] == e;
      assert i in ps;
      var k :| 0 <= k < |ps| && ps[k] == i;
      assert m[k] == e;
    }
  }

  /** With more than five matches the search returns exactly five. */
  lemma SearchPostsCapped(index: seq<Entry>, query: string)
    requires |set i | 0 <= i < |index| && Matches(index[i], query)| > MaxResults
    ensures |SearchPosts(index, query)| == MaxResults
  {
    MatchCount(index, query);
  }

  /** A field that contains the typed text, in whatever mixture of cases,
      makes the record match the lower-cased text. */
  lemma MatchesAnyCase(e: Entry, w: string)
    requires || Contains(e.title, w)
             || Contains(e.summary, w)
             || exists i :: 0 <= i < |e.tags| && Contains(e.tags[i], w)
    ensures Matches(e, ToLower(w))
  {
    if Contains(e.title, w) {
      ContainsLower(e.title, w);
    } else if Contains(e.summary, w) {
      ContainsLower(e.summary, w);
    } else {
      var i :| 0 <= i < |e.tags| && Contains(e.tags[i], w);
      ContainsLower(e.tags[i], w);
    }
  }

  /** Typed queries that differ only in letter case (or in surrounding white
      space of either case) select the same records. */
  lemma SearchPostsIgnoresCase(index: seq<Entry>, a: string, b: string)
    requires SameUpToCase(a, b)
    ensures NormalizeQuery(a) == NormalizeQuery(b)
    ensures SearchPosts(index, NormalizeQuery(a)) == SearchPosts(index, NormalizeQuery(b))
  {
    TrimLower(a);
    TrimLower(b);
  }

  /** Typing "CYAN" finds a record tagged "cyan". */
  lemma CyanExample()
    ensures var e := Entry("Palette", "/posts/palette/", "", ["cyan"]);
            SearchPosts([e], NormalizeQuery("CYAN")) == [e]
  {
    var e := Entry("Palette", "/posts/palette/", "", ["cyan"]);
    var v := "CYAN";
    assert !IsSpace(v[0]) && !IsSpace(v[3]);
    assert SkipLeading(v, 0) == 0 && SkipTrailing(v, 0, 4) == 4 && v[0..4] == v;
    var q := ToLower(v);
    assert q[0] == 'c' && q[1] == 'y' && q[2] == 'a' && q[3] == 'n';
    assert q == "cyan";
    OneRecord(e, q, 0);
  }

  /** The query "rust" over a one-record index finds that record. */
  lemma RustExample()
    ensures var e := Entry("Intro to Rust", "/posts/intro-to-rust/", "", ["rust", "systems"]);
            SearchPosts([e], "rust") == [e]
  {
    var e := Entry("Intro to Rust", "/posts/intro-to-rust/", "", ["rust", "systems"]);
    OneRecord(e, "rust", 0);
  }

  /** A one-record index whose record has a tag equal to the lower-case query
      returns that record. */
  lemma OneRecord(e: Entry, q: string, i: nat)
    requires i < |e.tags| && e.tags[i] == q && ToLower(q) == q
    ensures SearchPosts([e], q) == [e]
  {
    assert Contains(ToLower(e.tags[i]), q);
    assert Matches(e, q);
    assert [e][..0] == [];
  }
}
