# Homepage feed pipeline, in Dafny

This project models the feed pipeline of the website's homepage, found in
`src/lib/utils/rss.ts`. The site fetches RSS/Atom items from several blogs.
`polishRSSList` combines them in three steps:

- it flattens the per-feed lists into one list;
- it enriches each item for its source feed (`postProcess`);
- it sorts the result newest first and keeps the first `RSS_DISPLAY_COUNT` items (`sortByPubDate`, then `slice`).

The model has six modules:

- `Wrappers`: `Option`.
- `Strings`: first-occurrence search and replacement, which is what `String.prototype.replace` does with a string pattern.
- `RssTypes`: the feed item and the pipeline's constants.
- `PostProcessing`: the per-feed switch and the `map` over items.
- `PubDateSort`:
  - the comparator;
  - a stable insertion sort as a specification function (`SortByDate`);
  - the in-place sort of an array (`SortByPubDate`), proved equal to that function.
- `Polish`: flatten, post-process, sort and slice, as a method (`PolishRssList`) and as a function (`PolishedList`).

`new Date(s).getTime()` is a parameter `parse: string -> Option<int>`, where `None` stands for `NaN`.

The feed URLs and the display count come from a constants file that is not part of this model. They are a `FeedConstants` parameter. The `switch` is a chain of first-match tests, so the model is correct whether or not the URLs differ.

ECMAScript's `Array.prototype.sort` is stable, so its result is fixed when every date parses. `SortByDateIsTheStableSort` proves that in this case `SortByDate` gives the only newest-first, date-stable permutation of its input. The model's sort therefore agrees with every conforming engine. When some date does not parse, the comparator is not a consistent order and the standard leaves the result to the implementation. In that case the model commits to insertion sort; see "Left out".

## Model

| member | source | states |
|---|---|---|
| Strings.IndexOf | src/lib/utils/rss.ts:27 | the result is present exactly when `pat` occurs in `s`, and is then the leftmost occurrence |
| Strings.ReplaceFirst | src/lib/utils/rss.ts:27 | with no occurrence the string is unchanged; otherwise only the leftmost occurrence is replaced, and the parts before and after it are kept |
| Strings.ReplaceFirstKeepsLaterOccurrences | src/lib/utils/rss.ts:27 | an occurrence that starts after the replaced one ends survives, shifted by the length difference, so `replace` with a string pattern is not a global replace |
| PostProcessing.PostProcessItem | src/lib/utils/rss.ts:22-41 | title, publication date and source feed are never changed, and only a Vitalik-feed item can have its link changed |
| PostProcessing.PostProcess | src/lib/utils/rss.ts:20-21 | `map`: same length, and item i of the result is item i of the input, post-processed |
| PostProcessing.PostProcessVitalik | src/lib/utils/rss.ts:23-28 | a Vitalik-feed item gets the Vitalik banner; only the first ".ca" of its link becomes ".eth.limo"; a link without ".ca" is kept; no other field changes |
| PostProcessing.PostProcessVitalikExample | src/lib/utils/rss.ts:27 | "https://blog.example.ca/post/1" becomes "https://blog.example.eth.limo/post/1" |
| PostProcessing.PostProcessSolidity | src/lib/utils/rss.ts:29-33 | a Solidity-feed item that is not also the Vitalik feed gets the Solidity banner and nothing else changes |
| PostProcessing.PostProcessZeroXParc | src/lib/utils/rss.ts:34-38 | a 0xPARC-feed item that matches no earlier case gets the 0xPARC logo and nothing else changes |
| PostProcessing.PostProcessUnrecognised | src/lib/utils/rss.ts:39-40 | a list whose items all come from other feeds is returned unchanged |
| PostProcessing.PostProcessItemIdempotent | src/lib/utils/rss.ts:22-41 | post-processing an item twice equals doing it once, unless its link still holds ".ca" after the first pass |
| PostProcessing.PostProcessIdempotent | src/lib/utils/rss.ts:20-42 | post-processing a list with no Vitalik-feed item twice equals doing it once |
| PostProcessing.PostProcessVitalikNotIdempotent | src/lib/utils/rss.ts:23-28 | a Vitalik link "a.ca.ca" becomes "a.eth.limo.ca" on the first pass and "a.eth.limo.eth.limo" on the second, so the rewrite is not idempotent |
| PostProcessing.PostProcessAppend | src/lib/utils/rss.ts:20-21 | post-processing distributes over concatenation |
| PubDateSort.Compare | src/lib/utils/rss.ts:10-17 | positive exactly when b is strictly newer than a; negative exactly when a is strictly newer; zero exactly when a date is invalid or the dates are equal |
| PubDateSort.SortByDatePermutation | src/lib/utils/rss.ts:9-18 | sorting is a permutation of its input |
| PubDateSort.SortByDateNewestFirst | src/lib/utils/rss.ts:11-17 | when every date parses, the result is newest first |
| PubDateSort.SortByDateStable | src/lib/utils/rss.ts:10-17 | for every date (and for "invalid"), the items carrying it keep their input order |
| PubDateSort.SortByDateBarrier | src/lib/utils/rss.ts:13-15 | an item with an invalid date stays where it is; the items before it and after it are sorted separately |
| PubDateSort.StableOrderIsUnique | src/lib/utils/rss.ts:9-18 | two newest-first, fully dated permutations of each other that agree on the order within each date are equal |
| PubDateSort.SortByDateIsTheStableSort | src/lib/utils/rss.ts:9-18 | when every date parses, any stable newest-first permutation of the input is exactly the model's sort result |
| PubDateSort.InsertIntoPrefix | src/lib/utils/rss.ts:9-18 | one insertion pass over the array leaves the sorted prefix with the next item inserted and the rest untouched |
| PubDateSort.SortByPubDate | src/lib/utils/rss.ts:9-18 | sorts the array in place and returns the same array; its new contents are `SortByDate` of the old contents, a permutation of them |
| Polish.Flatten | src/lib/utils/rss.ts:45 | the length is the total count of items, and an item is in the result exactly when it is in one of the lists |
| Polish.FlattenKeepsOrder | src/lib/utils/rss.ts:45 | list i occurs whole, in order, right after the items of the lists before it |
| Polish.Slice | src/lib/utils/rss.ts:47 | the result is a prefix of the input, of length min(length, n) |
| Polish.PolishRssList | src/lib/utils/rss.ts:44-48 | the result is the flattened, post-processed, sorted list cut to the display count; its length is min(total items, display count) |
| Polish.PolishedEmpty | src/lib/utils/rss.ts:44-48 | no lists, or only empty lists, give an empty result |
| Polish.PolishedFromInput | src/lib/utils/rss.ts:44-48 | the result is a sub-multiset of the post-processed input, and every result item is some input item post-processed |
| Polish.PolishedNewestFirst | src/lib/utils/rss.ts:44-48 | when every date parses, the result is newest first |
| Polish.PolishedKeepsNewest | src/lib/utils/rss.ts:47 | when every date parses, no item left out is newer than any item shown |
| Polish.SortByDateOfThree | src/lib/utils/rss.ts:9-18 | three dated items, oldest first, come out in reverse order |
| Polish.PolishedExample | src/lib/utils/rss.ts:44-48 | lists [[A, B], [C]], with A older than B and B older than C, and a display count of at least 3 give [C, B, A], each item post-processed |

## Left out

- `src/pages/index.tsx`, the fetching of feeds, and the constants file are not part of this model. The feed URLs and `RSS_DISPLAY_COUNT` are parameters.
- `console.error` in the comparator is a diagnostic side effect and is not modelled.
- Date parsing is not modelled. The `parse` parameter stands for `new Date(s).getTime()`, and no property of the JavaScript date formats is assumed.
- SortByPubDate: when some date does not parse, the comparator is inconsistent and ECMAScript leaves the order implementation-defined. The model fixes insertion sort, so `SortByDateBarrier` is a property of the model's sort, and so is `SortByDateStable` for items with invalid dates. Permutation holds for any engine, and so does the whole result when every date parses (`SortByDateIsTheStableSort`).
- Slice: the display count is a `nat`. A negative or fractional `slice` bound is not modelled.
- Object identity is not modelled. An unrecognised item is the same object in JavaScript and an equal value here, and the arrays that `flat` and `map` create are values.
- Fields of an RSS item other than title, link, publication date, source feed and image are not modelled; the pipeline neither reads nor writes them.
- ReplaceFirst: `$` patterns in the replacement string are not interpreted, because the replacement ".eth.limo" contains none.
