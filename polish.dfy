/** The homepage feed pipeline: flatten the per-source item lists, enrich
    every item, sort the result newest first, and keep the first
    `displayCount` items. */
module Polish {

  import opened Wrappers
  import opened RssTypes
  import opened PostProcessing
  import opened PubDateSort

  function Min(a: nat, b: nat): nat {
    if a <= b then a else b
  }

  /** The number of items across all lists. */
  function TotalCount(lists: seq<seq<RssItem>>): nat {
    if lists == [] then 0 else |lists[0]| + TotalCount(lists[1..])
  }

  /** The lists concatenated in order, as `Array.prototype.flat` does to an
      array of arrays. */
  function Flatten(lists: seq<seq<RssItem>>): (r: seq<RssItem>)
    ensures |r| == TotalCount(lists)
    ensures forall x :: x in r <==> exists i :: 0 <= i < |lists| && x in lists[i]
  {
    if lists == [] then []
    else
      var rest := Flatten(lists[1..]);
      assert forall x :: x in rest <==> exists i :: 1 <= i < |lists| && x in lists[i] by {
        forall x | x in rest ensures exists i :: 1 <= i < |lists| && x in lists[i] {
          var i :| 0 <= i < |lists[1..]| && x in lists[1..][i];
          assert x in lists[i + 1];
        }
        forall x, i | 1 <= i < |lists| && x in lists[i] ensures x in rest {
          assert x in lists[1..][i - 1];
        }
      }
      lists[0] + rest
  }

  /** Flattening keeps each list whole and in place: list `i` occupies the
      positions after the items of the lists before it. */
  lemma {:induction false} FlattenKeepsOrder(lists: seq<seq<RssItem>>, i: nat)
    requires i < |lists|
    ensures TotalCount(lists[..i]) + |lists[i]| <= |Flatten(lists)|
    ensures Flatten(lists)[TotalCount(lists[..i])..TotalCount(lists[..i]) + |lists[i]|] == lists[i]
  {
    if i == 0 {
      assert lists[..0] == [];
    } else {
      FlattenKeepsOrder(lists[1..], i - 1);
      assert lists[..i][1..] == lists[1..][..i - 1];
      assert lists[..i][0] == lists[0];
    }
  }

  /** `s.slice(0, n)`: the first `n` items of `s`, or all of them when there are fewer. */
  function Slice(s: seq<RssItem>, n: nat): (r: seq<RssItem>)
    ensures |r| == Min(|s|, n)
    ensures r <= s
  {
    if |s| <= n then s else s[..n]
  }

  /** The value the pipeline returns. */
  function PolishedList(c: FeedConstants, parse: DateParser, lists: seq<seq<RssItem>>): seq<RssItem> {
    Slice(SortByDate(parse, PostProcess(c, Flatten(lists))), c.displayCount)
  }

  /** Flattens, post-processes, sorts in place and slices. */
  method PolishRssList(c: FeedConstants, parse: DateParser, lists: seq<seq<RssItem>>)
    returns (r: seq<RssItem>)
    ensures r == PolishedList(c, parse, lists)
    ensures |r| == Min(TotalCount(lists), c.displayCount)
  {
    var allItems := Flatten(lists);
    var readyForSorting := PostProcess(c, allItems);
    var a := new RssItem[|readyForSorting|](k requires 0 <= k < |readyForSorting| => readyForSorting[k]);
    assert a[..] == readyForSorting;
    var sorted := SortByPubDate(a, parse);
    r := Slice(sorted[..], c.displayCount);
  }

  lemma {:induction false} TotalCountOfEmptyLists(lists: seq<seq<RssItem>>)
    requires forall i :: 0 <= i < |lists| ==> lists[i] == []
    ensures TotalCount(lists) == 0
  {
    if lists != [] {
      TotalCountOfEmptyLists(lists[1..]);
    }
  }

  /** No lists, or only empty lists, give an empty result. */
  lemma PolishedEmpty(c: FeedConstants, parse: DateParser, lists: seq<seq<RssItem>>)
    requires forall i :: 0 <= i < |lists| ==> lists[i] == []
    ensures PolishedList(c, parse, lists) == []
  {
    TotalCountOfEmptyLists(lists);
  }

  /** Every displayed item is an enriched input item, and an input item is
      displayed at most as often as it occurs in the input. */
  lemma PolishedFromInput(c: FeedConstants, parse: DateParser, lists: seq<seq<RssItem>>)
    ensures multiset(PolishedList(c, parse, lists)) <= multiset(PostProcess(c, Flatten(lists)))
    ensures forall y :: y in PolishedList(c, parse, lists) ==>
      exists i, k :: 0 <= i < |lists| && 0 <= k < |lists[i]| && y == PostProcessItem(c, lists[i][k])
  {
    var ready := PostProcess(c, Flatten(lists));
    var sorted := SortByDate(parse, ready);
    var r := PolishedList(c, parse, lists);
    SortByDatePermutation(parse, ready);
    assert sorted == r + sorted[|r|..];
    assert multiset(sorted) == multiset(r) + multiset(sorted[|r|..]);
    forall y | y in r
      ensures exists i, k :: 0 <= i < |lists| && 0 <= k < |lists[i]| && y == PostProcessItem(c, lists[i][k])
    {
      assert y in multiset(ready);
      var m :| 0 <= m < |ready| && ready[m] == y;
      var x := Flatten(lists)[m];
      assert x in Flatten(lists);
      var i :| 0 <= i < |lists| && x in lists[i];
      var k :| 0 <= k < |lists[i]| && lists[i][k] == x;
    }
  }

  lemma AllDatesParseAfterPostProcess(c: FeedConstants, parse: DateParser, items: seq<RssItem>)
    requires AllDatesParse(parse, items)
    ensures AllDatesParse(parse, PostProcess(c, items))
  {
  }

  /** When every date parses, the displayed items are newest first. */
  lemma PolishedNewestFirst(c: FeedConstants, parse: DateParser, lists: seq<seq<RssItem>>)
    requires AllDatesParse(parse, Flatten(lists))
    ensures NewestFirst(parse, PolishedList(c, parse, lists))
  {
    AllDatesParseAfterPostProcess(c, parse, Flatten(lists));
    SortByDateNewestFirst(parse, PostProcess(c, Flatten(lists)));
  }

  /** In a newest-first sequence, nothing after a prefix is newer than
      anything in it. */
  lemma PrefixOfNewestFirst(parse: DateParser, sorted: seq<RssItem>, r: seq<RssItem>)
    requires NewestFirst(parse, sorted) && r <= sorted
    ensures forall x, y :: (x in multiset(sorted) - multiset(r) && y in r) ==> NotOlder(parse, y, x)
  {
    var rest := sorted[|r|..];
    assert sorted == r + rest;
    assert multiset(sorted) - multiset(r) == multiset(rest);
    forall x, y | x in multiset(sorted) - multiset(r) && y in r
      ensures NotOlder(parse, y, x)
    {
      assert x in rest;
      var j :| 0 <= j < |rest| && rest[j] == x;
      var i :| 0 <= i < |r| && r[i] == y;
      assert sorted[i] == y && sorted[|r| + j] == x;
    }
  }

  /** When every date parses, no item left out is newer than a displayed one. */
  lemma PolishedKeepsNewest(c: FeedConstants, parse: DateParser, lists: seq<seq<RssItem>>)
    requires AllDatesParse(parse, Flatten(lists))
    ensures forall x, y ::
      (x in multiset(PostProcess(c, Flatten(lists))) - multiset(PolishedList(c, parse, lists)) &&
       y in PolishedList(c, parse, lists)) ==> NotOlder(parse, y, x)
  {
    var ready := PostProcess(c, Flatten(lists));
    AllDatesParseAfterPostProcess(c, parse, Flatten(lists));
    SortByDateNewestFirst(parse, ready);
    SortByDatePermutation(parse, ready);
    PrefixOfNewestFirst(parse, SortByDate(parse, ready), PolishedList(c, parse, lists));
  }

  /** Three dated items, oldest first, sort into the reverse order. */
  lemma SortByDateOfThree(parse: DateParser, x: RssItem, y: RssItem, z: RssItem)
    requires parse(x.pubDate).Some? && parse(y.pubDate).Some? && parse(z.pubDate).Some?
    requires parse(x.pubDate).value < parse(y.pubDate).value < parse(z.pubDate).value
    ensures SortByDate(parse, [x, y, z]) == [z, y, x]
  {
    assert [x, y, z][..2] == [x, y] && [x, y][..1] == [x] && [x][..0] == [];
    assert SortByDate(parse, [x]) == [x];
    assert SortByDate(parse, [x, y]) == [y, x] by {
      assert InsertByDate(parse, [x], y) == [y, x];
    }
    assert [y, x][..1] == [y] && [y][..0] == [];
    assert InsertByDate(parse, [y], z) == [z, y];
    assert InsertByDate(parse, [y, x], z) == [z, y, x];
  }

  lemma FlattenOfTwo(a: RssItem, b: RssItem, cItem: RssItem)
    ensures Flatten([[a, b], [cItem]]) == [a, b, cItem]
  {
    assert [[a, b], [cItem]][1..] == [[cItem]];
    assert [[cItem]][1..] == [];
  }

  /** The worked example: lists [[A, B], [C]] with A older than B older than
      C come out as C, B, A, each enriched for its feed. */
  lemma PolishedExample(c: FeedConstants, parse: DateParser, a: RssItem, b: RssItem, cItem: RssItem)
    requires c.displayCount >= 3
    requires parse(a.pubDate).Some? && parse(b.pubDate).Some? && parse(cItem.pubDate).Some?
    requires parse(a.pubDate).value < parse(b.pubDate).value < parse(cItem.pubDate).value
    ensures PolishedList(c, parse, [[a, b], [cItem]]) ==
      [PostProcessItem(c, cItem), PostProcessItem(c, b), PostProcessItem(c, a)]
  {
    var a', b', c' := PostProcessItem(c, a), PostProcessItem(c, b), PostProcessItem(c, cItem);
    FlattenOfTwo(a, b, cItem);
    assert PostProcess(c, [a, b, cItem]) == [a', b', c'];
    SortByDateOfThree(parse, a', b', c');
  }
}
