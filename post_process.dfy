/** Per-feed enrichment of feed items: a banner or logo image for three known
    feeds and, for one of them, a rewrite of the link's domain suffix. */
module PostProcessing {

  import opened Wrappers
  import opened Strings
  import opened RssTypes

  const VitalikBanner: string := "/images/vitalik-blog-banner.svg"
  const SolidityBanner: string := "/images/solidity-banner.png"
  const ZeroXParcLogo: string := "/images/0xparc-logo.svg"

  /** The domain suffix rewritten in links of the Vitalik feed, and its replacement. */
  const DotCa: string := ".ca"
  const DotEthLimo: string := ".eth.limo"

  /** The feed identifier is one of the three that post-processing treats specially. */
  predicate Recognised(c: FeedConstants, feed: string) {
    feed == c.vitalikFeed || feed == c.solidityFeed || feed == c.zeroXParcFeed
  }

  /** One case of the switch on `sourceFeedUrl`; the first matching case wins. */
  function PostProcessItem(c: FeedConstants, item: RssItem): (r: RssItem)
    ensures r.title == item.title && r.pubDate == item.pubDate
    ensures r.sourceFeedUrl == item.sourceFeedUrl
    ensures r.link != item.link ==> item.sourceFeedUrl == c.vitalikFeed
  {
    if item.sourceFeedUrl == c.vitalikFeed then
      item.(imgSrc := Some(VitalikBanner), link := ReplaceFirst(item.link, DotCa, DotEthLimo))
    else if item.sourceFeedUrl == c.solidityFeed then
      item.(imgSrc := Some(SolidityBanner))
    else if item.sourceFeedUrl == c.zeroXParcFeed then
      item.(imgSrc := Some(ZeroXParcLogo))
    else
      item
  }

  /** Post-processing maps every item on its own: the result has the input's
      length and its i-th item is the i-th input item, post-processed. */
  function PostProcess(c: FeedConstants, items: seq<RssItem>): (r: seq<RssItem>)
    ensures |r| == |items|
    ensures forall i :: 0 <= i < |items| ==> r[i] == PostProcessItem(c, items[i])
  {
    if items == [] then []
    else [PostProcessItem(c, items[0])] + PostProcess(c, items[1..])
  }

  /** Items of the Vitalik feed get the blog banner and have only the first
      ".ca" of their link replaced by ".eth.limo"; a link without ".ca" is kept. */
  lemma PostProcessVitalik(c: FeedConstants, item: RssItem)
    requires item.sourceFeedUrl == c.vitalikFeed
    ensures PostProcessItem(c, item).imgSrc == Some(VitalikBanner)
    ensures !Contains(item.link, DotCa) ==> PostProcessItem(c, item).link == item.link
    ensures forall i: nat :: FirstOccurrence(item.link, DotCa, i) ==>
      PostProcessItem(c, item).link == item.link[..i] + DotEthLimo + item.link[i + |DotCa|..]
    ensures PostProcessItem(c, item) ==
      item.(imgSrc := PostProcessItem(c, item).imgSrc, link := PostProcessItem(c, item).link)
  {
  }

  lemma ExampleLinkFirstDotCa(link: string)
    requires link == "https://blog.example.ca/post/1"
    ensures FirstOccurrence(link, DotCa, 20)
  {
    assert link[20..23] == DotCa;
    assert forall m :: 0 < m <= 20 ==> link[m] != 'c';
    FirstOccurrenceBySecondChar(link, DotCa, 20);
  }

  lemma ExampleLinkRewritten(link: string)
    requires link == "https://blog.example.ca/post/1"
    ensures link[..20] + DotEthLimo + link[23..] == "https://blog.example.eth.limo/post/1"
  {
    assert link[..20] == "https://blog.example" && link[23..] == "/post/1";
  }

  /** A Vitalik-feed link on a ".ca" domain moves to the ".eth.limo" domain. */
  lemma PostProcessVitalikExample(c: FeedConstants, item: RssItem)
    requires item.sourceFeedUrl == c.vitalikFeed
    requires item.link == "https://blog.example.ca/post/1"
    ensures PostProcessItem(c, item).link == "https://blog.example.eth.limo/post/1"
    ensures PostProcessItem(c, item).imgSrc == Some(VitalikBanner)
  {
    ExampleLinkFirstDotCa(item.link);
    ExampleLinkRewritten(item.link);
  }

  /** Items of the Solidity feed (unless it shares the Vitalik identifier) get
      the Solidity banner and nothing else changes. */
  lemma PostProcessSolidity(c: FeedConstants, item: RssItem)
    requires item.sourceFeedUrl == c.solidityFeed != c.vitalikFeed
    ensures PostProcessItem(c, item) == item.(imgSrc := Some(SolidityBanner))
  {
  }

  /** Items of the 0xPARC feed (unless an earlier case claims its identifier)
      get the 0xPARC logo and nothing else changes. */
  lemma PostProcessZeroXParc(c: FeedConstants, item: RssItem)
    requires item.sourceFeedUrl == c.zeroXParcFeed
    requires item.sourceFeedUrl != c.vitalikFeed && item.sourceFeedUrl != c.solidityFeed
    ensures PostProcessItem(c, item) == item.(imgSrc := Some(ZeroXParcLogo))
  {
  }

  /** Items of any other feed pass through unchanged. */
  lemma PostProcessUnrecognised(c: FeedConstants, items: seq<RssItem>)
    requires forall i :: 0 <= i < |items| ==> !Recognised(c, items[i].sourceFeedUrl)
    ensures PostProcess(c, items) == items
  {
  }

  /** Post-processing twice is post-processing once, for every item except a
      Vitalik-feed item whose link still contains ".ca" after the first pass. */
  lemma PostProcessItemIdempotent(c: FeedConstants, item: RssItem)
    requires item.sourceFeedUrl == c.vitalikFeed ==>
      !Contains(PostProcessItem(c, item).link, DotCa)
    ensures PostProcessItem(c, PostProcessItem(c, item)) == PostProcessItem(c, item)
  {
  }

  /** On a sequence in which no item comes from the Vitalik feed,
      post-processing is idempotent. */
  lemma PostProcessIdempotent(c: FeedConstants, items: seq<RssItem>)
    requires forall i :: 0 <= i < |items| ==> items[i].sourceFeedUrl != c.vitalikFeed
    ensures PostProcess(c, PostProcess(c, items)) == PostProcess(c, items)
  {
    forall i | 0 <= i < |items|
      ensures PostProcess(c, PostProcess(c, items))[i] == PostProcess(c, items)[i]
    {
      PostProcessItemIdempotent(c, items[i]);
    }
  }

  lemma TwoDotCaFirst(link: string)
    requires link == "a.ca.ca"
    ensures FirstOccurrence(link, DotCa, 1)
    ensures link[..1] + DotEthLimo + link[4..] == "a.eth.limo.ca"
  {
    assert link[1..4] == DotCa;
    FirstOccurrenceBySecondChar(link, DotCa, 1);
    assert link[..1] == "a" && link[4..] == ".ca";
  }

  lemma OneDotCaLeftFirst(link: string)
    requires link == "a.eth.limo.ca"
    ensures FirstOccurrence(link, DotCa, 10)
    ensures link[..10] + DotEthLimo + link[13..] == "a.eth.limo.eth.limo"
  {
    assert link[10..13] == DotCa;
    assert forall m :: 0 < m <= 10 ==> link[m] != 'c';
    FirstOccurrenceBySecondChar(link, DotCa, 10);
    assert link[..10] == "a.eth.limo" && link[13..] == [];
  }

  /** A Vitalik-feed link with two ".ca" loses one per pass, so post-processing
      is not idempotent on such items. */
  lemma PostProcessVitalikNotIdempotent(c: FeedConstants, item: RssItem)
    requires item.sourceFeedUrl == c.vitalikFeed && item.link == "a.ca.ca"
    ensures PostProcessItem(c, item).link == "a.eth.limo.ca"
    ensures PostProcessItem(c, PostProcessItem(c, item)).link == "a.eth.limo.eth.limo"
  {
    TwoDotCaFirst(item.link);
    OneDotCaLeftFirst(PostProcessItem(c, item).link);
  }

  /** Post-processing distributes over concatenation. */
  lemma PostProcessAppend(c: FeedConstants, a: seq<RssItem>, b: seq<RssItem>)
    ensures PostProcess(c, a + b) == PostProcess(c, a) + PostProcess(c, b)
  {
    var whole, parts := PostProcess(c, a + b), PostProcess(c, a) + PostProcess(c, b);
    forall i | 0 <= i < |a + b|
      ensures whole[i] == parts[i]
    {
      if i >= |a| {
        assert (a + b)[i] == b[i - |a|];
      }
    }
  }
}
