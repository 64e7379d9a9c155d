/** The feed item record that flows through the homepage feed pipeline, and
    the configured constants the pipeline reads. */
module RssTypes {

  import opened Wrappers

  /** One syndicated post. `imgSrc` is absent until post-processing sets it. */
  datatype RssItem = RssItem(
    title: string,
    link: string,
    pubDate: string,
    sourceFeedUrl: string,
    imgSrc: Option<string>)

  /** The site constants the pipeline is configured with: the identifiers of
      the three specially treated feeds and the number of items displayed. */
  datatype FeedConstants = FeedConstants(
    vitalikFeed: string,
    solidityFeed: string,
    zeroXParcFeed: string,
    displayCount: nat)

}
