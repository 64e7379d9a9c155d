/** Ranking feed items newest first by their publication date, with the
    comparator of the homepage feed: unparseable dates compare as equal. The
    runtime sort is a stable in-place sort; the model fixes it as insertion
    sort, given both as a function on sequences (the specification) and as a
    method on an array (the in-place algorithm). */
module PubDateSort {

  import opened Wrappers
  import opened RssTypes

  /** Parsing a date string to a millisecond timestamp; None stands for NaN. */
  type DateParser = string -> Option<int>

  /** `a` has a parseable date that is not older than `b`'s parseable date. */
  predicate NotOlder(parse: DateParser, a: RssItem, b: RssItem) {
    parse(a.pubDate).Some? && parse(b.pubDate).Some? &&
    parse(a.pubDate).value >= parse(b.pubDate).value
  }

  /** The comparator: positive when `b` is newer than `a`, so that `b` goes
      first; zero when either date does not parse. */
  function Compare(parse: DateParser, a: RssItem, b: RssItem): (r: int)
    ensures r > 0 <==> NotOlder(parse, b, a) && parse(a.pubDate) != parse(b.pubDate)
    ensures r < 0 <==> NotOlder(parse, a, b) && parse(a.pubDate) != parse(b.pubDate)
    ensures r == 0 <==> parse(a.pubDate).None? || parse(b.pubDate).None? ||
                        parse(a.pubDate) == parse(b.pubDate)
  {
    var dateA, dateB := parse(a.pubDate), parse(b.pubDate);
    if dateA.None? || dateB.None? then 0 else dateB.value - dateA.value
  }

  predicate AllDatesParse(parse: DateParser, s: seq<RssItem>) {
    forall i :: 0 <= i < |s| ==> parse(s[i].pubDate).Some?
  }

  /** Every item is not older than every item after it. */
  predicate NewestFirst(parse: DateParser, s: seq<RssItem>) {
    forall i, j :: 0 <= i < j < |s| ==> NotOlder(parse, s[i], s[j])
  }

  /** `[x]` when `x`'s parsed date is `key`, and `[]` otherwise. */
  function IfDate(parse: DateParser, x: RssItem, key: Option<int>): seq<RssItem> {
    if parse(x.pubDate) == key then [x] else []
  }

  /** The items of `s` whose parsed date is `key`, in their order in `s`. */
  function WithDate(parse: DateParser, s: seq<RssItem>, key: Option<int>): (r: seq<RssItem>)
    ensures |r| <= |s|
  {
    if s == [] then []
    else
      WithDate(parse, s[..|s| - 1], key) + IfDate(parse, s[|s| - 1], key)
  }

  /** Inserts `x` after the sorted prefix `sorted`, moving it left past every
      trailing item the comparator says `x` must precede. */
  function InsertByDate(parse: DateParser, sorted: seq<RssItem>, x: RssItem): (r: seq<RssItem>)
    ensures |r| == |sorted| + 1
  {
    if sorted == [] then [x]
    else
      var last := sorted[|sorted| - 1];
      if Compare(parse, last, x) > 0 then InsertByDate(parse, sorted[..|sorted| - 1], x) + [last]
      else sorted + [x]
  }

  /** Insertion sort by publication date, newest first; the specification of
      the in-place sort. */
  function SortByDate(parse: DateParser, s: seq<RssItem>): (r: seq<RssItem>)
    ensures |r| == |s|
  {
    if s == [] then []
    else
      InsertByDate(parse, SortByDate(parse, s[..|s| - 1]), s[|s| - 1])
  }

  lemma {:induction false} InsertByDatePermutation(parse: DateParser, sorted: seq<RssItem>, x: RssItem)
    ensures multiset(InsertByDate(parse, sorted, x)) == multiset(sorted) + multiset{x}
  {
    if sorted != [] {
      var init, last := sorted[..|sorted| - 1], sorted[|sorted| - 1];
      assert sorted == init + [last];
      if Compare(parse, last, x) > 0 {
        InsertByDatePermutation(parse, init, x);
      }
    }
  }

  /** The sort only reorders: its result is a permutation of its input. */
  lemma {:induction false} SortByDatePermutation(parse: DateParser, s: seq<RssItem>)
    ensures multiset(SortByDate(parse, s)) == multiset(s)
  {
    if s != [] {
      var init := s[..|s| - 1];
      assert s == init + [s[|s| - 1]];
      SortByDatePermutation(parse, init);
      InsertByDatePermutation(parse, SortByDate(parse, init), s[|s| - 1]);
    }
  }

  /** Appending an item that every item of a newest-first sequence is not
      older than keeps it newest first. */
  lemma NewestFirstAppend(parse: DateParser, s: seq<RssItem>, y: RssItem)
    requires NewestFirst(parse, s)
    requires forall i :: 0 <= i < |s| ==> NotOlder(parse, s[i], y)
    ensures NewestFirst(parse, s + [y])
  {
  }

  lemma {:induction false} InsertByDateNewestFirst(parse: DateParser, sorted: seq<RssItem>, x: RssItem)
    requires AllDatesParse(parse, sorted) && parse(x.pubDate).Some?
    requires NewestFirst(parse, sorted)
    ensures NewestFirst(parse, InsertByDate(parse, sorted, x))
  {
    if sorted != [] {
      var init, last := sorted[..|sorted| - 1], sorted[|sorted| - 1];
      if Compare(parse, last, x) > 0 {
        InsertByDateNewestFirst(parse, init, x);
        var ins := InsertByDate(parse, init, x);
        InsertByDatePermutation(parse, init, x);
        forall i | 0 <= i < |ins|
          ensures NotOlder(parse, ins[i], last)
        {
          assert ins[i] in multiset(ins);
          if ins[i] != x {
            assert ins[i] in multiset(init);
            var k :| 0 <= k < |init| && init[k] == ins[i];
            assert sorted[k] == init[k];
          }
        }
        NewestFirstAppend(parse, ins, last);
      } else {
        NewestFirstAppend(parse, sorted, x);
      }
    }
  }

  /** When every date parses, the sort puts newer items first. */
  lemma {:induction false} SortByDateNewestFirst(parse: DateParser, s: seq<RssItem>)
    requires AllDatesParse(parse, s)
    ensures NewestFirst(parse, SortByDate(parse, s))
  {
    if s != [] {
      var init := s[..|s| - 1];
      SortByDateNewestFirst(parse, init);
      var sortedInit := SortByDate(parse, init);
      SortByDatePermutation(parse, init);
      forall i | 0 <= i < |sortedInit|
        ensures parse(sortedInit[i].pubDate).Some?
      {
        assert sortedInit[i] in multiset(init);
      }
      InsertByDateNewestFirst(parse, sortedInit, s[|s| - 1]);
    }
  }

  lemma {:induction false} WithDateAppend(parse: DateParser, a: seq<RssItem>, b: seq<RssItem>, key: Option<int>)
    ensures WithDate(parse, a + b, key) == WithDate(parse, a, key) + WithDate(parse, b, key)
  {
    if b == [] {
      assert a + b == a;
    } else {
      var bInit := b[..|b| - 1];
      assert (a + b)[..|a + b| - 1] == a + bInit;
      assert (a + b)[|a + b| - 1] == b[|b| - 1];
      WithDateAppend(parse, a, bInit, key);
    }
  }

  /** The step of InsertByDateWithDate where `x` moves left past `last`:
      the two have different parsed dates, so at most one of them has `key`. */
  lemma MovedPastWithDate(parse: DateParser, ins: seq<RssItem>, init: seq<RssItem>,
                          last: RssItem, x: RssItem, key: Option<int>)
    requires Compare(parse, last, x) > 0
    requires WithDate(parse, ins, key) == WithDate(parse, init, key) + IfDate(parse, x, key)
    ensures WithDate(parse, ins + [last], key) ==
      WithDate(parse, init, key) + IfDate(parse, last, key) + IfDate(parse, x, key)
  {
    var tail, lastTail := IfDate(parse, x, key), IfDate(parse, last, key);
    assert (ins + [last])[..|ins|] == ins;
    assert tail + lastTail == lastTail + tail by {
      assert tail == [] || lastTail == [];
    }
    calc {
      WithDate(parse, ins + [last], key);
      WithDate(parse, ins, key) + lastTail;
      WithDate(parse, init, key) + (tail + lastTail);
      WithDate(parse, init, key) + lastTail + tail;
    }
  }

  lemma {:induction false} InsertByDateWithDate(parse: DateParser, sorted: seq<RssItem>, x: RssItem, key: Option<int>)
    ensures WithDate(parse, InsertByDate(parse, sorted, x), key) ==
      WithDate(parse, sorted, key) + IfDate(parse, x, key)
  {
    if sorted == [] {
      assert [x][..0] == [];
    } else {
      var init, last := sorted[..|sorted| - 1], sorted[|sorted| - 1];
      if Compare(parse, last, x) > 0 {
        InsertByDateWithDate(parse, init, x, key);
        MovedPastWithDate(parse, InsertByDate(parse, init, x), init, last, x, key);
      } else {
        assert (sorted + [x])[..|sorted|] == sorted;
      }
    }
  }

  /** The sort is stable: for every parsed date, and for the unparseable ones,
      the items carrying it keep their relative input order. */
  lemma {:induction false} SortByDateStable(parse: DateParser, s: seq<RssItem>, key: Option<int>)
    ensures WithDate(parse, SortByDate(parse, s), key) == WithDate(parse, s, key)
  {
    if s != [] {
      var init := s[..|s| - 1];
      SortByDateStable(parse, init, key);
      InsertByDateWithDate(parse, SortByDate(parse, init), s[|s| - 1], key);
    }
  }

  lemma {:induction false} InsertByDateBarrier(parse: DateParser, p: seq<RssItem>, x: RssItem, q: seq<RssItem>, y: RssItem)
    requires parse(x.pubDate).None?
    ensures InsertByDate(parse, p + [x] + q, y) == p + [x] + InsertByDate(parse, q, y)
  {
    var whole := p + [x] + q;
    if q == [] {
      assert whole[|whole| - 1] == x;
    } else {
      var qInit, last := q[..|q| - 1], q[|q| - 1];
      assert whole[..|whole| - 1] == p + [x] + qInit;
      assert whole[|whole| - 1] == last;
      if Compare(parse, last, y) > 0 {
        InsertByDateBarrier(parse, p, x, qInit, y);
      }
    }
  }

  /** An item whose date does not parse is never passed by another item: the
      sort orders the items before it and the items after it separately. */
  /** Sorting `s + [y]` inserts `y` into the sorted `s`. */
  lemma SortByDateSnoc(parse: DateParser, s: seq<RssItem>, y: RssItem)
    ensures SortByDate(parse, s + [y]) == InsertByDate(parse, SortByDate(parse, s), y)
  {
    assert (s + [y])[..|s|] == s;
  }

  lemma {:induction false} SortByDateBarrier(parse: DateParser, a: seq<RssItem>, x: RssItem, b: seq<RssItem>)
    requires parse(x.pubDate).None?
    ensures SortByDate(parse, a + [x] + b) == SortByDate(parse, a) + [x] + SortByDate(parse, b)
  {
    var sortedA := SortByDate(parse, a);
    if b == [] {
      SortByDateSnoc(parse, a, x);
      if sortedA != [] {
        assert Compare(parse, sortedA[|sortedA| - 1], x) == 0;
      }
      assert a + [x] + b == a + [x];
    } else {
      var bInit, last := b[..|b| - 1], b[|b| - 1];
      assert a + [x] + b == (a + [x] + bInit) + [last];
      assert b == bInit + [last];
      SortByDateSnoc(parse, a + [x] + bInit, last);
      SortByDateSnoc(parse, bInit, last);
      SortByDateBarrier(parse, a, x, bInit);
      InsertByDateBarrier(parse, sortedA, x, SortByDate(parse, bInit), last);
    }
  }

  /** One more step of the insertion: `x` still has to pass `sorted[j - 1]`. */
  lemma InsertByDateStep(parse: DateParser, sorted: seq<RssItem>, x: RssItem, j: nat)
    requires 0 < j <= |sorted| && Compare(parse, sorted[j - 1], x) > 0
    ensures InsertByDate(parse, sorted[..j], x) + sorted[j..] ==
      InsertByDate(parse, sorted[..j - 1], x) + sorted[j - 1..]
  {
    assert sorted[..j][..j - 1] == sorted[..j - 1];
    assert [sorted[j - 1]] + sorted[j..] == sorted[j - 1..];
  }

  /** The insertion stops in front of `sorted[j - 1]`, or at the start. */
  lemma InsertByDateStop(parse: DateParser, sorted: seq<RssItem>, x: RssItem, j: nat)
    requires j <= |sorted| && (j == 0 || Compare(parse, sorted[j - 1], x) <= 0)
    ensures InsertByDate(parse, sorted[..j], x) == sorted[..j] + [x]
  {
  }

  /** Sorting one more element of `s` inserts it into the sorted prefix. */
  lemma SortByDatePrefix(parse: DateParser, s: seq<RssItem>, i: nat)
    requires i < |s|
    ensures SortByDate(parse, s[..i + 1]) == InsertByDate(parse, SortByDate(parse, s[..i]), s[i])
  {
    assert s[..i + 1][..i] == s[..i];
  }

  /** The last items of two newest-first permutations of each other carry
      the same date: the oldest one. */
  lemma LastDatesAgree(parse: DateParser, t: seq<RssItem>, u: seq<RssItem>)
    requires AllDatesParse(parse, t) && multiset(t) == multiset(u)
    requires NewestFirst(parse, t) && NewestFirst(parse, u)
    requires 0 < |t| == |u|
    ensures parse(t[|t| - 1].pubDate) == parse(u[|u| - 1].pubDate)
  {
    var n := |t|;
    var y, z := t[n - 1], u[n - 1];
    assert z in multiset(t) && y in multiset(u);
    var i :| 0 <= i < n && t[i] == z;
    var k :| 0 <= k < n && u[k] == y;
    assert i < n - 1 ==> NotOlder(parse, t[i], y);
    assert k < n - 1 ==> NotOlder(parse, u[k], z);
  }

  /** Two sequences that agree on the items of one date, and whose last
      items both carry that date, end with the same item. */
  lemma LastItemsEqual(parse: DateParser, t: seq<RssItem>, u: seq<RssItem>)
    requires 0 < |t| && 0 < |u| && parse(t[|t| - 1].pubDate) == parse(u[|u| - 1].pubDate)
    requires WithDate(parse, t, parse(t[|t| - 1].pubDate)) == WithDate(parse, u, parse(t[|t| - 1].pubDate))
    ensures t[|t| - 1] == u[|u| - 1]
  {
    var w := WithDate(parse, t, parse(t[|t| - 1].pubDate));
    assert t[|t| - 1] == w[|w| - 1];
  }

  /** Agreement on one date survives dropping a common last item. */
  lemma WithDateDropLast(parse: DateParser, t: seq<RssItem>, u: seq<RssItem>, key: Option<int>)
    requires 0 < |t| && 0 < |u| && t[|t| - 1] == u[|u| - 1]
    requires WithDate(parse, t, key) == WithDate(parse, u, key)
    ensures WithDate(parse, t[..|t| - 1], key) == WithDate(parse, u[..|u| - 1], key)
  {
    var a, b, tail := WithDate(parse, t[..|t| - 1], key), WithDate(parse, u[..|u| - 1], key), IfDate(parse, t[|t| - 1], key);
    assert a + tail == b + tail;
    assert a == (a + tail)[..|a|] && b == (b + tail)[..|b|];
  }

  lemma MultisetDropLast(t: seq<RssItem>, u: seq<RssItem>)
    requires 0 < |t| == |u| && t[|t| - 1] == u[|u| - 1] && multiset(t) == multiset(u)
    ensures multiset(t[..|t| - 1]) == multiset(u[..|u| - 1])
  {
    var t', u', y := t[..|t| - 1], u[..|u| - 1], t[|t| - 1];
    assert t == t' + [y];
    assert u == u' + [y];
    assert multiset(t') + multiset{y} == multiset(u') + multiset{y};
    assert multiset(t') == multiset(t') + multiset{y} - multiset{y};
    assert multiset(u') == multiset(u') + multiset{y} - multiset{y};
  }

  lemma AllDatesParsePermutation(parse: DateParser, t: seq<RssItem>, u: seq<RssItem>)
    requires AllDatesParse(parse, t) && multiset(t) == multiset(u)
    ensures AllDatesParse(parse, u)
  {
    forall i | 0 <= i < |u|
      ensures parse(u[i].pubDate).Some?
    {
      assert u[i] in multiset(t);
    }
  }

  lemma NewestFirstPrefix(parse: DateParser, t: seq<RssItem>, m: nat)
    requires m <= |t| && AllDatesParse(parse, t) && NewestFirst(parse, t)
    ensures AllDatesParse(parse, t[..m]) && NewestFirst(parse, t[..m])
  {
  }

  /** Two newest-first sequences with the same items, all dated, whose items
      of each date come in the same order, are equal. */
  lemma {:induction false} StableOrderIsUnique(parse: DateParser, t: seq<RssItem>, u: seq<RssItem>)
    requires AllDatesParse(parse, t) && multiset(t) == multiset(u)
    requires NewestFirst(parse, t) && NewestFirst(parse, u)
    requires forall key :: WithDate(parse, t, key) == WithDate(parse, u, key)
    ensures t == u
  {
    assert |t| == |multiset(t)| == |multiset(u)| == |u|;
    if t != [] {
      var n := |t|;
      LastDatesAgree(parse, t, u);
      LastItemsEqual(parse, t, u);
      var t', u' := t[..n - 1], u[..n - 1];
      forall key
        ensures WithDate(parse, t', key) == WithDate(parse, u', key)
      {
        WithDateDropLast(parse, t, u, key);
      }
      MultisetDropLast(t, u);
      AllDatesParsePermutation(parse, t, u);
      NewestFirstPrefix(parse, t, n - 1);
      NewestFirstPrefix(parse, u, n - 1);
      StableOrderIsUnique(parse, t', u');
      assert t == t' + [t[n - 1]] && u == u' + [u[n - 1]];
    }
  }

  /** When every date parses, the sort's order is the only one a stable sort
      by the comparator can produce: any newest-first permutation of the input
      that keeps the input order among equally dated items is the sort's
      result. */
  lemma SortByDateIsTheStableSort(parse: DateParser, s: seq<RssItem>, t: seq<RssItem>)
    requires AllDatesParse(parse, s) && multiset(t) == multiset(s)
    requires NewestFirst(parse, t)
    requires forall key :: WithDate(parse, t, key) == WithDate(parse, s, key)
    ensures t == SortByDate(parse, s)
  {
    var sorted := SortByDate(parse, s);
    SortByDatePermutation(parse, s);
    SortByDateNewestFirst(parse, s);
    forall key
      ensures WithDate(parse, sorted, key) == WithDate(parse, s, key)
    {
      SortByDateStable(parse, s, key);
    }
    AllDatesParsePermutation(parse, s, sorted);
    StableOrderIsUnique(parse, sorted, t);
  }

  /** In `prefix[..j] + [x] + prefix[j..] + rest`, `x` stands at `j` after
      `prefix[j - 1]`; swapping the two moves `x` one place left. */
  lemma SwapLeft(prefix: seq<RssItem>, x: RssItem, rest: seq<RssItem>, j: nat)
    requires j <= |prefix|
    ensures (prefix[..j] + [x] + prefix[j..] + rest)[j] == x
    ensures j > 0 ==> (prefix[..j] + [x] + prefix[j..] + rest)[j - 1] == prefix[j - 1]
    ensures j > 0 ==>
      (prefix[..j] + [x] + prefix[j..] + rest)[j - 1 := x][j := prefix[j - 1]] ==
      prefix[..j - 1] + [x] + prefix[j - 1..] + rest
  {
    if j == 0 { return; }
    var s := (prefix[..j] + [x] + prefix[j..] + rest)[j - 1 := x][j := prefix[j - 1]];
    var t := prefix[..j - 1] + [x] + prefix[j - 1..] + rest;
    assert |s| == |t|;
    forall k | 0 <= k < |s| ensures s[k] == t[k] {
      if k > j && k <= |prefix| {
        assert t[k] == prefix[j - 1..][k - j];
      }
    }
  }

  /** Moves `a[i]` left into the sorted prefix `a[..i]` by swapping it with
      each trailing item of the prefix that the comparator puts after it. */
  method InsertIntoPrefix(a: array<RssItem>, i: nat, parse: DateParser,
                          ghost prefix: seq<RssItem>, ghost x: RssItem, ghost rest: seq<RssItem>)
    requires |prefix| == i && a[..] == prefix + [x] + rest
    modifies a
    ensures a[..] == InsertByDate(parse, prefix, x) + rest
  {
    ghost var goal := InsertByDate(parse, prefix, x);
    var j := i;
    assert prefix[..j] == prefix && prefix[j..] == [];
    while j > 0 && Compare(parse, a[j - 1], a[j]) > 0
      invariant 0 <= j <= i
      invariant a[..] == prefix[..j] + [x] + prefix[j..] + rest
      invariant goal == InsertByDate(parse, prefix[..j], x) + prefix[j..]
    {
      SwapLeft(prefix, x, rest, j);
      InsertByDateStep(parse, prefix, x, j);
      ghost var before := a[..];
      a[j - 1], a[j] := a[j], a[j - 1];
      assert a[..] == before[j - 1 := x][j := prefix[j - 1]];
      j := j - 1;
    }
    SwapLeft(prefix, x, rest, j);
    InsertByDateStop(parse, prefix, x, j);
  }

  /** Before step `i` of the sort: the sorted prefix, the next item, the rest. */
  lemma SortStepBefore(parse: DateParser, input: seq<RssItem>, i: nat, cur: seq<RssItem>)
    requires i < |input| && cur == SortByDate(parse, input[..i]) + input[i..]
    ensures cur == SortByDate(parse, input[..i]) + [input[i]] + input[i + 1..]
    ensures |SortByDate(parse, input[..i])| == i
  {
    assert input[i..] == [input[i]] + input[i + 1..];
  }

  /** After step `i` of the sort: the sorted prefix is one item longer. */
  lemma SortStepAfter(parse: DateParser, input: seq<RssItem>, i: nat, cur: seq<RssItem>)
    requires i < |input|
    requires cur == InsertByDate(parse, SortByDate(parse, input[..i]), input[i]) + input[i + 1..]
    ensures cur == SortByDate(parse, input[..i + 1]) + input[i + 1..]
  {
    SortByDatePrefix(parse, input, i);
  }

  /** Sorts `a` in place by publication date, newest first, and returns the
      same array, like `Array.prototype.sort`. */
  method SortByPubDate(a: array<RssItem>, parse: DateParser) returns (sorted: array<RssItem>)
    modifies a
    ensures sorted == a
    ensures a[..] == SortByDate(parse, old(a[..]))
    ensures multiset(a[..]) == multiset(old(a[..]))
  {
    ghost var input := a[..];
    var i := 0;
    assert input[..0] == [] && input[0..] == input;
    while i < a.Length
      invariant 0 <= i <= a.Length
      invariant a[..] == SortByDate(parse, input[..i]) + input[i..]
    {
      SortStepBefore(parse, input, i, a[..]);
      InsertIntoPrefix(a, i, parse, SortByDate(parse, input[..i]), input[i], input[i + 1..]);
      SortStepAfter(parse, input, i, a[..]);
      i := i + 1;
    }
    assert input[..a.Length] == input && input[a.Length..] == [];
    SortByDatePermutation(parse, input);
    sorted := a;
  }
}
