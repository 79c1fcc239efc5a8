/**
 * The recent-history list of the video page: a bounded, most-recent-first
 * list in which re-recording a url moves it to the front.
 */
module History {

  /** At most this many entries are kept (`.slice(0, 10)`). */
  const Capacity: nat := 10

  /** One history entry: `{ id, url, apiName, timestamp }`. */
  datatype HistoryItem = HistoryItem(id: int, url: string, apiName: string, timestamp: string)

  /** No two entries share a url. */
  ghost predicate DistinctUrls(h: seq<HistoryItem>) {
    forall i, j :: 0 <= i < j < |h| ==> h[i].url != h[j].url
  }

  /** `xs` is `ys` with some elements dropped, the rest kept in order. */
  ghost predicate IsSubsequence<T>(xs: seq<T>, ys: seq<T>)
    decreases |ys|
  {
    xs == [] ||
    (ys != [] &&
     ((xs[0] == ys[0] && IsSubsequence(xs[1..], ys[1..])) || IsSubsequence(xs, ys[1..])))
  }

  /** `history.filter(item => item.url !== url)`. */
  function Without(h: seq<HistoryItem>, url: string): (r: seq<HistoryItem>)
    ensures |r| <= |h|
    ensures forall i :: 0 <= i < |r| ==> r[i].url != url
    ensures forall x :: x in r <==> x in h && x.url != url
  {
    if h == [] then []
    else if h[0].url == url then Without(h[1..], url)
    else [h[0]] + Without(h[1..], url)
  }

  /** `[newItem, ...history.filter(item => item.url !== url)].slice(0, 10)`. */
  function Updated(h: seq<HistoryItem>, item: HistoryItem): (r: seq<HistoryItem>)
    ensures 1 <= |r| <= Capacity
    ensures r[0] == item
    ensures forall i :: 1 <= i < |r| ==> r[i].url != item.url
  {
    var all := [item] + Without(h, item.url);
    if |all| <= Capacity then all else all[..Capacity]
  }

  /** The entries after the first are the surviving old entries, cut to nine. */
  lemma UpdatedTail(h: seq<HistoryItem>, item: HistoryItem)
    ensures var r := Updated(h, item);
      var rest := Without(h, item.url);
      |r| == (if |rest| + 1 <= Capacity then |rest| + 1 else Capacity) &&
      r[1..] == rest[..|r| - 1]
  {
  }

  /** Filtering keeps exactly the entries whose url differs, in their order. */
  lemma {:induction false} WithoutIsSubsequence(h: seq<HistoryItem>, url: string)
    ensures IsSubsequence(Without(h, url), h)
  {
    if h != [] {
      WithoutIsSubsequence(h[1..], url);
      if h[0].url != url {
        assert ([h[0]] + Without(h[1..], url))[1..] == Without(h[1..], url);
      } else {
        SubsequenceDropFront(Without(h[1..], url), h);
      }
    }
  }

  /** A subsequence of `ys[1..]` is a subsequence of `ys`. */
  lemma SubsequenceDropFront<T>(xs: seq<T>, ys: seq<T>)
    requires ys != [] && IsSubsequence(xs, ys[1..])
    ensures IsSubsequence(xs, ys)
  {
  }

  /** Filtering distributes over concatenation, so relative order is kept. */
  lemma {:induction false} WithoutAppend(a: seq<HistoryItem>, b: seq<HistoryItem>, url: string)
    ensures Without(a + b, url) == Without(a, url) + Without(b, url)
  {
    if a != [] {
      assert (a + b)[1..] == a[1..] + b;
      WithoutAppend(a[1..], b, url);
    } else {
      assert a + b == b;
    }
  }

  /** When no entry has the url, filtering changes nothing. */
  lemma {:induction false} WithoutAbsent(h: seq<HistoryItem>, url: string)
    requires forall i :: 0 <= i < |h| ==> h[i].url != url
    ensures Without(h, url) == h
  {
    if h != [] {
      WithoutAbsent(h[1..], url);
      assert [h[0]] + h[1..] == h;
    }
  }

  /** The tail of a list with distinct urls has distinct urls. */
  lemma DistinctTail(h: seq<HistoryItem>)
    requires h != [] && DistinctUrls(h)
    ensures DistinctUrls(h[1..])
    ensures forall x :: x in h[1..] ==> x.url != h[0].url
  {
  }

  /** An entry put in front of a list with distinct, different urls keeps them distinct. */
  lemma DistinctCons(x: HistoryItem, w: seq<HistoryItem>)
    requires DistinctUrls(w)
    requires forall k :: 0 <= k < |w| ==> w[k].url != x.url
    ensures DistinctUrls([x] + w)
  {
  }

  /** Filtering a list with distinct urls leaves it with distinct urls. */
  lemma {:induction false} WithoutDistinct(h: seq<HistoryItem>, url: string)
    requires DistinctUrls(h)
    ensures DistinctUrls(Without(h, url))
  {
    if h != [] {
      DistinctTail(h);
      WithoutDistinct(h[1..], url);
      if h[0].url != url {
        var w := Without(h[1..], url);
        assert forall k :: 0 <= k < |w| ==> w[k] in h[1..];
        DistinctCons(h[0], w);
      }
    }
  }

  /** Recording keeps the urls pairwise distinct when they were before. */
  lemma DistinctPreserved(h: seq<HistoryItem>, item: HistoryItem)
    requires DistinctUrls(h)
    ensures DistinctUrls(Updated(h, item))
  {
    WithoutDistinct(h, item.url);
    var all := [item] + Without(h, item.url);
    DistinctCons(item, Without(h, item.url));
    var r := Updated(h, item);
    forall i, j | 0 <= i < j < |r| ensures r[i].url != r[j].url {
      assert r[i] == all[i] && r[j] == all[j];
    }
  }

  /** Recording the same url twice leaves one entry for it, at the front, with the later name. */
  lemma RecordTwice(h: seq<HistoryItem>, first: HistoryItem, second: HistoryItem)
    requires first.url == second.url
    ensures var r := Updated(Updated(h, first), second);
      r[0] == second && forall i :: 0 <= i < |r| && r[i].url == second.url ==> i == 0
  {
  }

  /** The list after recording each of `items` in turn, starting from `h`. */
  function RecordAll(h: seq<HistoryItem>, items: seq<HistoryItem>): seq<HistoryItem>
    decreases |items|
  {
    if items == [] then h
    else Updated(RecordAll(h, items[..|items| - 1]), items[|items| - 1])
  }

  /** `s` backwards. */
  function Reversed(s: seq<HistoryItem>): (r: seq<HistoryItem>)
    ensures |r| == |s|
    ensures forall x :: x in r <==> x in s
  {
    if s == [] then [] else [s[|s| - 1]] + Reversed(s[..|s| - 1])
  }

  /** Recording an item whose url is not yet listed just prepends it, cut to the capacity. */
  lemma UpdatedFresh(h: seq<HistoryItem>, item: HistoryItem)
    requires forall i :: 0 <= i < |h| ==> h[i].url != item.url
    ensures var n := if |h| + 1 <= Capacity then |h| + 1 else Capacity;
      Updated(h, item) == ([item] + h)[..n]
  {
    WithoutAbsent(h, item.url);
  }

  /** Taking a prefix of a prefix. */
  lemma PrependTake(x: HistoryItem, s: seq<HistoryItem>, m: nat, n: nat)
    requires m <= |s| && n <= m + 1
    ensures ([x] + s[..m])[..n] == ([x] + s)[..n]
  {
  }

  /**
   * Starting from an empty history, recording items with distinct urls keeps
   * the ten most recent, most recent first.
   */
  lemma {:induction false} RecordAllFromEmpty(items: seq<HistoryItem>)
    requires DistinctUrls(items)
    ensures var n := if |items| <= Capacity then |items| else Capacity;
      RecordAll([], items) == Reversed(items)[..n]
  {
    if items != [] {
      var p := items[..|items| - 1];
      var x := items[|items| - 1];
      assert DistinctUrls(p) by {
        forall i, j | 0 <= i < j < |p| ensures p[i].url != p[j].url {
          assert p[i] == items[i] && p[j] == items[j];
        }
      }
      RecordAllFromEmpty(p);
      var m := if |p| <= Capacity then |p| else Capacity;
      var prev := Reversed(p)[..m];
      forall k | 0 <= k < |prev| ensures prev[k].url != x.url {
        assert prev[k] in p;
        var i :| 0 <= i < |p| && p[i] == prev[k];
        assert items[i] == prev[k];
      }
      UpdatedFresh(prev, x);
      var n := if |items| <= Capacity then |items| else Capacity;
      calc {
        RecordAll([], items);
        Updated(prev, x);
        ([x] + prev)[..n];
        { PrependTake(x, Reversed(p), m, n); }
        ([x] + Reversed(p))[..n];
        { assert Reversed(items) == [x] + Reversed(p); }
        Reversed(items)[..n];
      }
    }
  }
}
