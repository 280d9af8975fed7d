/**
 * QuantizationService.fallbackPaletteGeneration: an exact-RGB histogram of the
 * image (alpha ignored), kept in a Map whose iteration order is insertion
 * order, then a stable sort by descending count and slice(0, colorCount).
 */
module PaletteGeneration {
  import opened Raster
  import opened ProcessingModels

  /** One histogram bucket: a colour key and how many pixels carry it. */
  datatype Bucket = Bucket(key: Rgb, count: nat)

  /** A value of the source's colorMap: the Color built for the key and its counter. */
  datatype Entry = Entry(color: Color, count: nat)

  /** The RGB key of every pixel, in pixel order; the fourth byte (alpha) is not part of it. */
  function PixelKeys(data: seq<Byte>): (ks: seq<Rgb>)
    ensures |ks| == |data| / 4
    ensures forall i :: 0 <= i < |ks| ==> ks[i] == Rgb(data[4 * i], data[4 * i + 1], data[4 * i + 2])
  {
    seq(|data| / 4, i requires 0 <= i < |data| / 4 => Rgb(data[4 * i], data[4 * i + 1], data[4 * i + 2]))
  }

  function KeysOf(h: seq<Bucket>): (ks: seq<Rgb>)
    ensures |ks| == |h|
    ensures forall i :: 0 <= i < |h| ==> ks[i] == h[i].key
  {
    seq(|h|, i requires 0 <= i < |h| => h[i].key)
  }

  ghost predicate DistinctKeys(h: seq<Bucket>) {
    forall i, j :: 0 <= i < j < |h| ==> h[i].key != h[j].key
  }

  /** Position of the bucket for k (Map.has / Map.get), or -1 when there is none. */
  function KeyIndex(h: seq<Bucket>, k: Rgb): (j: int)
    ensures -1 <= j < |h|
    ensures 0 <= j ==> h[j].key == k && forall i :: 0 <= i < j ==> h[i].key != k
    ensures j < 0 ==> forall i :: 0 <= i < |h| ==> h[i].key != k
  {
    if h == [] then -1
    else if h[0].key == k then 0
    else
      var j := KeyIndex(h[1..], k);
      if j < 0 then -1 else j + 1
  }

  /** Counting one more pixel of colour k: increment its bucket, or append a new one. */
  function Bump(h: seq<Bucket>, k: Rgb): seq<Bucket> {
    var j := KeyIndex(h, k);
    if j < 0 then h + [Bucket(k, 1)] else h[j := Bucket(k, h[j].count + 1)]
  }

  /** The histogram of a key sequence, buckets in order of first appearance. */
  function Histogram(pix: seq<Rgb>): seq<Bucket>
    decreases |pix|
  {
    if pix == [] then [] else Bump(Histogram(pix[..|pix| - 1]), pix[|pix| - 1])
  }

  /** Each bucket is a distinct colour of pix and carries that colour's exact pixel count. */
  ghost predicate ExactCounts(h: seq<Bucket>, pix: seq<Rgb>) {
    DistinctKeys(h) &&
    forall i :: 0 <= i < |h| ==> h[i].key in pix && h[i].count == multiset(pix)[h[i].key]
  }

  /** Index of the first pixel that carries k. */
  function FirstAppearance(pix: seq<Rgb>, k: Rgb): (n: nat)
    requires k in pix
    ensures n < |pix| && pix[n] == k
    ensures forall i :: 0 <= i < n ==> pix[i] != k
  {
    if pix[0] == k then 0 else 1 + FirstAppearance(pix[1..], k)
  }

  lemma {:induction false} FirstAppearanceSnoc(pix: seq<Rgb>, x: Rgb, k: Rgb)
    requires k in pix
    ensures k in pix + [x] && FirstAppearance(pix + [x], k) == FirstAppearance(pix, k)
  {
    var n := FirstAppearance(pix, k);
    var m := FirstAppearance(pix + [x], k);
    assert (pix + [x])[n] == k;
    assert m <= n;
    assert pix[m] == k;
  }

  /**
   * Every bucket holds a distinct colour of the image together with its exact
   * pixel count, and every colour of the image has a bucket.
   */
  lemma {:induction false} HistogramCounts(pix: seq<Rgb>)
    ensures ExactCounts(Histogram(pix), pix)
    ensures forall k :: k in pix ==> k in KeysOf(Histogram(pix))
    decreases |pix|
  {
    if pix != [] {
      var p, k := pix[..|pix| - 1], pix[|pix| - 1];
      assert pix == p + [k];
      HistogramCounts(p);
      if KeyIndex(Histogram(p), k) < 0 {
        CountStepNew(Histogram(p), p, k);
      } else {
        CountStepExisting(Histogram(p), p, k);
      }
    }
  }

  /** A colour seen for the first time gets a new bucket with count 1 at the end. */
  lemma CountStepNew(h0: seq<Bucket>, p: seq<Rgb>, k: Rgb)
    requires ExactCounts(h0, p)
    requires forall x :: x in p ==> x in KeysOf(h0)
    requires KeyIndex(h0, k) < 0
    ensures ExactCounts(Bump(h0, k), p + [k])
    ensures forall x :: x in p + [k] ==> x in KeysOf(Bump(h0, k))
  {
    var h, pix := Bump(h0, k), p + [k];
    assert h == h0 + [Bucket(k, 1)];
    assert multiset(pix) == multiset(p) + multiset{k};
    AbsentKey(h0, p, k);
    assert k !in multiset(p);
    forall i | 0 <= i < |h| ensures h[i].key in pix && h[i].count == multiset(pix)[h[i].key] {
      if i < |h0| {
        assert h[i] == h0[i] && h0[i].key in p;
      }
    }
    forall x | x in pix ensures x in KeysOf(h) {
      if x == k {
        assert KeysOf(h)[|h0|] == k;
      } else {
        assert x in p;
        var t :| 0 <= t < |h0| && KeysOf(h0)[t] == x;
        assert KeysOf(h)[t] == x;
      }
    }
  }

  /** A colour seen before has its bucket's count incremented in place. */
  lemma CountStepExisting(h0: seq<Bucket>, p: seq<Rgb>, k: Rgb)
    requires ExactCounts(h0, p)
    requires forall x :: x in p ==> x in KeysOf(h0)
    requires 0 <= KeyIndex(h0, k)
    ensures ExactCounts(Bump(h0, k), p + [k])
    ensures forall x :: x in p + [k] ==> x in KeysOf(Bump(h0, k))
  {
    var h, pix, j := Bump(h0, k), p + [k], KeyIndex(h0, k);
    assert h == h0[j := Bucket(k, h0[j].count + 1)];
    assert multiset(pix) == multiset(p) + multiset{k};
    forall i | 0 <= i < |h| ensures h[i].key in pix && h[i].count == multiset(pix)[h[i].key] {
      if i != j {
        assert h[i] == h0[i] && h0[i].key != k;
      }
    }
    forall x | x in pix ensures x in KeysOf(h) {
      if x == k {
        assert KeysOf(h)[j] == k;
      } else {
        assert x in p;
        var t :| 0 <= t < |h0| && KeysOf(h0)[t] == x;
        assert KeysOf(h)[t] == x;
      }
    }
  }

  /** Buckets come in the order in which their colours first appear in the image. */
  lemma {:induction false} HistogramOrder(pix: seq<Rgb>)
    ensures InAppearanceOrder(Histogram(pix), pix)
    decreases |pix|
  {
    if pix != [] {
      var p, k := pix[..|pix| - 1], pix[|pix| - 1];
      assert pix == p + [k];
      HistogramOrder(p);
      HistogramCounts(p);
      OrderStep(Histogram(p), p, k);
    }
  }

  /** A colour without a bucket has not been seen yet. */
  lemma AbsentKey(h0: seq<Bucket>, p: seq<Rgb>, k: Rgb)
    requires forall x :: x in p ==> x in KeysOf(h0)
    requires KeyIndex(h0, k) < 0
    ensures k !in p && k !in multiset(p)
  {
    forall t | 0 <= t < |h0| ensures KeysOf(h0)[t] != k {
      assert h0[t].key != k;
    }
    assert k !in KeysOf(h0);
  }

  /** Counting one more pixel keeps the buckets in first-appearance order. */
  lemma OrderStep(h0: seq<Bucket>, p: seq<Rgb>, k: Rgb)
    requires InAppearanceOrder(h0, p)
    requires forall x :: x in p ==> x in KeysOf(h0)
    ensures InAppearanceOrder(Bump(h0, k), p + [k])
  {
    forall i | 0 <= i < |h0|
      ensures h0[i].key in p + [k]
      ensures FirstAppearance(p + [k], h0[i].key) == FirstAppearance(p, h0[i].key)
    {
      FirstAppearanceSnoc(p, k, h0[i].key);
    }
    if KeyIndex(h0, k) < 0 {
      OrderStepNew(h0, p, k);
    } else {
      var h := Bump(h0, k);
      assert |h| == |h0| && forall i :: 0 <= i < |h| ==> h[i].key == h0[i].key;
    }
  }

  /** A new bucket goes last, and its colour is the last to appear. */
  lemma OrderStepNew(h0: seq<Bucket>, p: seq<Rgb>, k: Rgb)
    requires InAppearanceOrder(h0, p)
    requires forall x :: x in p ==> x in KeysOf(h0)
    requires KeyIndex(h0, k) < 0
    requires forall i :: 0 <= i < |h0| ==>
      h0[i].key in p + [k] && FirstAppearance(p + [k], h0[i].key) == FirstAppearance(p, h0[i].key)
    ensures InAppearanceOrder(Bump(h0, k), p + [k])
  {
    var h, pix := Bump(h0, k), p + [k];
    assert h == h0 + [Bucket(k, 1)];
    AbsentKey(h0, p, k);
    assert FirstAppearance(pix, k) == |p|;
    forall a, b | 0 <= a < b < |h|
      ensures FirstAppearance(pix, h[a].key) < FirstAppearance(pix, h[b].key)
    {
      assert h[a] == h0[a];
      if b < |h0| {
        assert h[b] == h0[b];
      } else {
        assert FirstAppearance(p, h0[a].key) < |p|;
      }
    }
  }

  /** Buckets are colours of pix, listed in the order in which they first appear in it. */
  ghost predicate InAppearanceOrder(h: seq<Bucket>, pix: seq<Rgb>) {
    (forall i :: 0 <= i < |h| ==> h[i].key in pix) &&
    forall i, j :: 0 <= i < j < |h| ==> FirstAppearance(pix, h[i].key) < FirstAppearance(pix, h[j].key)
  }

  /**
   * The stable sort of (a, b) => b.count - a.count, as an insertion: b goes
   * after every bucket whose count is at least its own.
   */
  function InsertByCount(b: Bucket, t: seq<Bucket>): (r: seq<Bucket>)
    ensures multiset(r) == multiset(t) + multiset{b}
    ensures forall i :: 0 <= i < |r| ==> r[i] == b || r[i] in t
  {
    if t == [] then [b]
    else if t[0].count < b.count then [b] + t
    else
      assert t == [t[0]] + t[1..];
      [t[0]] + InsertByCount(b, t[1..])
  }

  /** Array.prototype.sort with the descending-count comparator (a stable sort). */
  function SortByCount(bs: seq<Bucket>): (r: seq<Bucket>)
    ensures multiset(r) == multiset(bs)
    decreases |bs|
  {
    if bs == [] then []
    else
      assert bs == bs[..|bs| - 1] + [bs[|bs| - 1]];
      InsertByCount(bs[|bs| - 1], SortByCount(bs[..|bs| - 1]))
  }

  /** x comes before y: a larger count, or the same count and an earlier first appearance. */
  ghost predicate Precedes(x: Bucket, y: Bucket, pix: seq<Rgb>) {
    x.key in pix && y.key in pix &&
    (x.count > y.count ||
     (x.count == y.count && FirstAppearance(pix, x.key) < FirstAppearance(pix, y.key)))
  }

  ghost predicate Ordered(t: seq<Bucket>, pix: seq<Rgb>) {
    forall i, j :: 0 <= i < j < |t| ==> Precedes(t[i], t[j], pix)
  }

  lemma {:induction false} InsertOrdered(b: Bucket, t: seq<Bucket>, pix: seq<Rgb>)
    requires b.key in pix
    requires forall i :: 0 <= i < |t| ==> t[i].key in pix
    requires Ordered(t, pix)
    requires forall i :: 0 <= i < |t| ==> FirstAppearance(pix, t[i].key) < FirstAppearance(pix, b.key)
    ensures Ordered(InsertByCount(b, t), pix)
    decreases |t|
  {
    if t == [] {
    } else if t[0].count < b.count {
      InsertFrontOrdered(b, t, pix);
    } else {
      InsertOrdered(b, t[1..], pix);
      InsertAfterOrdered(b, t, pix);
    }
  }

  /** A bucket that precedes every element of an ordered list can go in front of it. */
  lemma ConsOrdered(x: Bucket, t: seq<Bucket>, pix: seq<Rgb>)
    requires Ordered(t, pix)
    requires forall k :: 0 <= k < |t| ==> Precedes(x, t[k], pix)
    ensures Ordered([x] + t, pix)
  {
    var r := [x] + t;
    forall i, j | 0 <= i < j < |r| ensures Precedes(r[i], r[j], pix) {
      assert r[j] == t[j - 1];
      if i > 0 {
        assert r[i] == t[i - 1];
      }
    }
  }

  /** b goes in front of a list whose first count is smaller than its own. */
  lemma InsertFrontOrdered(b: Bucket, t: seq<Bucket>, pix: seq<Rgb>)
    requires b.key in pix
    requires forall i :: 0 <= i < |t| ==> t[i].key in pix
    requires Ordered(t, pix)
    requires t != [] && t[0].count < b.count
    ensures Ordered([b] + t, pix)
  {
    forall k | 0 <= k < |t| ensures Precedes(b, t[k], pix) {
      if k > 0 {
        assert Precedes(t[0], t[k], pix);
      }
    }
    ConsOrdered(b, t, pix);
  }

  /** b goes after t[0] when t[0] counts at least as much; the rest is already ordered. */
  lemma InsertAfterOrdered(b: Bucket, t: seq<Bucket>, pix: seq<Rgb>)
    requires b.key in pix
    requires forall i :: 0 <= i < |t| ==> t[i].key in pix
    requires Ordered(t, pix)
    requires forall i :: 0 <= i < |t| ==> FirstAppearance(pix, t[i].key) < FirstAppearance(pix, b.key)
    requires t != [] && t[0].count >= b.count
    requires Ordered(InsertByCount(b, t[1..]), pix)
    ensures Ordered(InsertByCount(b, t), pix)
  {
    var rest := InsertByCount(b, t[1..]);
    forall k | 0 <= k < |rest| ensures Precedes(t[0], rest[k], pix) {
      HeadPrecedes(b, t, pix, rest[k]);
    }
    ConsOrdered(t[0], rest, pix);
    assert InsertByCount(b, t) == [t[0]] + rest by {
      assert t == [t[0]] + t[1..];
    }
  }

  lemma HeadPrecedes(b: Bucket, t: seq<Bucket>, pix: seq<Rgb>, y: Bucket)
    requires b.key in pix
    requires Ordered(t, pix)
    requires forall i :: 0 <= i < |t| ==> t[i].key in pix
    requires forall i :: 0 <= i < |t| ==> FirstAppearance(pix, t[i].key) < FirstAppearance(pix, b.key)
    requires t != [] && t[0].count >= b.count
    requires y == b || y in t[1..]
    ensures Precedes(t[0], y, pix)
  {
    if y != b {
      var m :| 0 <= m < |t[1..]| && t[1..][m] == y;
      assert t[m + 1] == y;
    }
  }

  /**
   * Sorting buckets that are in first-appearance order yields descending counts,
   * ties kept in first-appearance order: the sort is stable.
   */
  lemma {:induction false} SortOrdered(bs: seq<Bucket>, pix: seq<Rgb>)
    requires InAppearanceOrder(bs, pix)
    ensures Ordered(SortByCount(bs), pix)
    decreases |bs|
  {
    if bs != [] {
      var init, last := bs[..|bs| - 1], bs[|bs| - 1];
      SortOrdered(init, pix);
      var t := SortByCount(init);
      forall i | 0 <= i < |t|
        ensures t[i].key in pix
        ensures FirstAppearance(pix, t[i].key) < FirstAppearance(pix, last.key)
      {
        assert t[i] in multiset(init);
        var m :| 0 <= m < |init| && init[m] == t[i];
      }
      InsertOrdered(last, t, pix);
    }
  }

  /** JavaScript's slice(0, end) length: a negative end counts back from the length. */
  function SliceEnd(len: nat, end: int): (n: nat)
    ensures n <= len
    ensures 0 <= end <= len ==> n == end
    ensures len <= end ==> n == len
    ensures end < 0 ==> n == if len + end < 0 then 0 else len + end
  {
    if end < 0 then (if len + end < 0 then 0 else len + end)
    else if end < len then end
    else len
  }

  /** The buckets whose colours fallbackPaletteGeneration returns, in order. */
  function TopBuckets(pix: seq<Rgb>, colorCount: int): seq<Bucket> {
    var s := SortByCount(Histogram(pix));
    s[..SliceEnd(|s|, colorCount)]
  }

  /**
   * The sorted histogram has one bucket per distinct colour, with exact counts,
   * ordered by count and, among equal counts, by first appearance.
   */
  lemma SortedHistogram(pix: seq<Rgb>)
    ensures |SortByCount(Histogram(pix))| == |Histogram(pix)|
    ensures ExactCounts(SortByCount(Histogram(pix)), pix)
    ensures Ordered(SortByCount(Histogram(pix)), pix)
  {
    var h, s := Histogram(pix), SortByCount(Histogram(pix));
    HistogramCounts(pix);
    HistogramOrder(pix);
    SortOrdered(h, pix);
    assert |s| == |h| by {
      assert |multiset(s)| == |multiset(h)|;
    }
    forall i | 0 <= i < |s|
      ensures s[i].key in pix && s[i].count == multiset(pix)[s[i].key]
    {
      assert s[i] in multiset(h);
    }
    forall i, j | 0 <= i < j < |s| ensures s[i].key != s[j].key {
      assert Precedes(s[i], s[j], pix);
    }
  }

  /** Where a colour of the image sits in the sorted histogram. */
  lemma SortedPosition(pix: seq<Rgb>, k: Rgb) returns (p: nat)
    requires k in pix
    ensures p < |SortByCount(Histogram(pix))|
    ensures SortByCount(Histogram(pix))[p] == Bucket(k, multiset(pix)[k])
  {
    var h, s := Histogram(pix), SortByCount(Histogram(pix));
    HistogramCounts(pix);
    var m :| 0 <= m < |h| && KeysOf(h)[m] == k;
    assert h[m] in multiset(s);
    p :| 0 <= p < |s| && s[p] == h[m];
  }

  /**
   * The palette has min(colorCount, number of distinct colours) entries for a
   * non-negative colorCount, pairwise distinct colours of the image, each with
   * its exact pixel count.
   */
  lemma TopBucketsContents(pix: seq<Rgb>, colorCount: int)
    ensures |TopBuckets(pix, colorCount)| == SliceEnd(|Histogram(pix)|, colorCount)
    ensures 0 <= colorCount ==>
      |TopBuckets(pix, colorCount)| == (if colorCount < |Histogram(pix)| then colorCount else |Histogram(pix)|)
    ensures ExactCounts(TopBuckets(pix, colorCount), pix)
  {
    SortedHistogram(pix);
  }

  /**
   * The palette is ordered by non-increasing count; equal counts keep the order
   * in which the colours first appear in the image.
   */
  lemma TopBucketsOrdered(pix: seq<Rgb>, colorCount: int)
    ensures Ordered(TopBuckets(pix, colorCount), pix)
  {
    SortedHistogram(pix);
    var s := SortByCount(Histogram(pix));
    var r := TopBuckets(pix, colorCount);
    forall i, j | 0 <= i < j < |r| ensures Precedes(r[i], r[j], pix) {
      assert Precedes(s[i], s[j], pix);
    }
  }

  /** Nothing left out of the palette is more frequent than anything kept. */
  lemma TopBucketsMostFrequent(pix: seq<Rgb>, colorCount: int)
    ensures forall k, i :: k in pix && k !in KeysOf(TopBuckets(pix, colorCount)) && 0 <= i < |TopBuckets(pix, colorCount)| ==>
      multiset(pix)[k] <= TopBuckets(pix, colorCount)[i].count
  {
    var r := TopBuckets(pix, colorCount);
    forall k, i | k in pix && k !in KeysOf(r) && 0 <= i < |r| ensures multiset(pix)[k] <= r[i].count {
      LeftOutNotMoreFrequent(pix, colorCount, k, i);
    }
  }

  lemma LeftOutNotMoreFrequent(pix: seq<Rgb>, colorCount: int, k: Rgb, i: nat)
    requires k in pix && k !in KeysOf(TopBuckets(pix, colorCount)) && i < |TopBuckets(pix, colorCount)|
    ensures multiset(pix)[k] <= TopBuckets(pix, colorCount)[i].count
  {
    var s := SortByCount(Histogram(pix));
    var r := TopBuckets(pix, colorCount);
    SortedHistogram(pix);
    var p := SortedPosition(pix, k);
    assert forall t :: 0 <= t < |r| ==> KeysOf(r)[t] == s[t].key;
    assert p >= |r|;
    assert Precedes(s[i], s[p], pix);
  }

  /** When colorCount reaches the number of distinct colours, every colour of the image is kept. */
  lemma TopBucketsComplete(pix: seq<Rgb>, colorCount: int)
    requires |Histogram(pix)| <= colorCount
    ensures forall k :: k in pix ==> k in KeysOf(TopBuckets(pix, colorCount))
  {
    var r := TopBuckets(pix, colorCount);
    SortedHistogram(pix);
    forall k | k in pix ensures k in KeysOf(r) {
      var p := SortedPosition(pix, k);
      assert KeysOf(r)[p] == k;
    }
  }

  /** The map's keys are exactly the colours listed in its insertion order. */
  ghost predicate Follows(order: seq<Rgb>, colorMap: map<Rgb, Entry>) {
    (forall j :: 0 <= j < |order| ==> order[j] in colorMap) &&
    (forall k :: k in colorMap ==> k in order)
  }

  /** The buckets that the map and its insertion order describe. */
  function Buckets(order: seq<Rgb>, colorMap: map<Rgb, Entry>): (h: seq<Bucket>)
    requires forall j :: 0 <= j < |order| ==> order[j] in colorMap
    ensures |h| == |order|
    ensures forall j :: 0 <= j < |h| ==> h[j] == Bucket(order[j], colorMap[order[j]].count)
  {
    seq(|order|, j requires 0 <= j < |order| => Bucket(order[j], colorMap[order[j]].count))
  }

  lemma DataLengthMultipleOfFour(image: ImageData)
    requires image.Valid()
    ensures |image.data| % 4 == 0
  {
    assert |image.data| == (image.width * image.height) * 4;
  }

  lemma HistogramDistinct(pix: seq<Rgb>)
    ensures DistinctKeys(Histogram(pix))
  {
    HistogramCounts(pix);
  }

  lemma HistogramPrefix(pix: seq<Rgb>, n: nat)
    requires n < |pix|
    ensures Histogram(pix[..n + 1]) == Bump(Histogram(pix[..n]), pix[n])
  {
    assert pix[..n + 1][..n] == pix[..n];
  }

  /** Incrementing the counter of a colour already in the map bumps its bucket. */
  lemma CountExisting(order: seq<Rgb>, colorMap: map<Rgb, Entry>, key: Rgb)
    requires Follows(order, colorMap)
    requires DistinctKeys(Buckets(order, colorMap))
    requires key in colorMap
    ensures Buckets(order, colorMap[key := colorMap[key].(count := colorMap[key].count + 1)]) ==
      Bump(Buckets(order, colorMap), key)
  {
    var m := colorMap[key := colorMap[key].(count := colorMap[key].count + 1)];
    var h0, h := Buckets(order, colorMap), Buckets(order, m);
    var t :| 0 <= t < |order| && order[t] == key;
    assert h0[t].key == key;
    assert KeyIndex(h0, key) == t;
    forall j | 0 <= j < |h| ensures h[j] == h0[t := Bucket(key, h0[t].count + 1)][j] {
      if j != t {
        assert order[j] != key;
      }
    }
  }

  /** Adding a colour not yet in the map appends a bucket with count 1. */
  lemma CountNew(order: seq<Rgb>, colorMap: map<Rgb, Entry>, key: Rgb, c: Color)
    requires Follows(order, colorMap)
    requires key !in colorMap
    ensures Buckets(order + [key], colorMap[key := Entry(c, 1)]) == Bump(Buckets(order, colorMap), key)
  {
    var h0 := Buckets(order, colorMap);
    assert KeyIndex(h0, key) < 0;
  }

  /**
   * One pixel of the counting loop: increment the entry of its colour, or add
   * an entry holding a fresh Color and count 1.
   */
  method CountPixel(order: seq<Rgb>, colorMap: map<Rgb, Entry>, key: Rgb)
    returns (order': seq<Rgb>, colorMap': map<Rgb, Entry>)
    requires Follows(order, colorMap)
    requires DistinctKeys(Buckets(order, colorMap))
    ensures Follows(order', colorMap')
    ensures Buckets(order', colorMap') == Bump(Buckets(order, colorMap), key)
    ensures forall k :: k in colorMap' ==>
      (k in colorMap && colorMap'[k].color == colorMap[k].color) ||
      (colorMap'[k].color.Key() == k && colorMap'[k].color.a == 255 &&
       colorMap'[k].color.lab.None? && fresh(colorMap'[k].color))
  {
    if key in colorMap {
      order', colorMap' := order, colorMap[key := colorMap[key].(count := colorMap[key].count + 1)];
      CountExisting(order, colorMap, key);
    } else {
      var c := NewColor(key.r, key.g, key.b);
      order', colorMap' := order + [key], colorMap[key := Entry(c, 1)];
      CountNew(order, colorMap, key, c);
    }
  }

  /**
   * The counting loop of fallbackPaletteGeneration: the Map (with its
   * insertion order) ends up describing the histogram of the image, and every
   * value holds a fresh Color of its key.
   */
  method CountColors(image: ImageData) returns (order: seq<Rgb>, colorMap: map<Rgb, Entry>)
    requires image.Valid()
    ensures Follows(order, colorMap)
    ensures Buckets(order, colorMap) == Histogram(PixelKeys(image.data))
    ensures forall k :: k in colorMap ==>
      colorMap[k].color.Key() == k && colorMap[k].color.a == 255 &&
      colorMap[k].color.lab.None? && fresh(colorMap[k].color)
  {
    var data := image.data;
    ghost var pix := PixelKeys(data);
    DataLengthMultipleOfFour(image);
    order, colorMap := [], map[];
    var i := 0;
    ghost var n := 0;  // pixels counted so far
    while i < |data|
      invariant 0 <= i <= |data| && i == 4 * n
      invariant Follows(order, colorMap)
      invariant Buckets(order, colorMap) == Histogram(pix[..n])
      invariant forall k :: k in colorMap ==>
        colorMap[k].color.Key() == k && colorMap[k].color.a == 255 &&
        colorMap[k].color.lab.None? && fresh(colorMap[k].color)
    {
      var key := Rgb(data[i], data[i + 1], data[i + 2]);
      assert key == pix[n];
      HistogramPrefix(pix, n);
      HistogramDistinct(pix[..n]);
      order, colorMap := CountPixel(order, colorMap, key);
      i, n := i + 4, n + 1;
    }
    assert pix[..n] == pix;
  }

  /** The .map(item => item.color) step: the Color stored for each bucket's key. */
  function ColorsOf(bs: seq<Bucket>, colorMap: map<Rgb, Entry>): (cs: seq<Color>)
    requires forall t :: 0 <= t < |bs| ==> bs[t].key in colorMap
    ensures |cs| == |bs|
    ensures forall t :: 0 <= t < |bs| ==> cs[t] == colorMap[bs[t].key].color
  {
    seq(|bs|, t requires 0 <= t < |bs| => colorMap[bs[t].key].color)
  }

  /** Sorting the buckets keeps their keys, so each still has its map entry. */
  lemma SortedKeysInMap(order: seq<Rgb>, colorMap: map<Rgb, Entry>)
    requires Follows(order, colorMap)
    ensures forall t :: 0 <= t < |SortByCount(Buckets(order, colorMap))| ==>
      SortByCount(Buckets(order, colorMap))[t].key in colorMap
  {
    var h := Buckets(order, colorMap);
    var s := SortByCount(h);
    forall t | 0 <= t < |s| ensures s[t].key in colorMap {
      assert s[t] in multiset(h);
    }
  }

  /**
   * fallbackPaletteGeneration: one fresh Color (alpha 255, no cached Lab) per
   * returned bucket, with the bucket's colour.
   */
  method FallbackPaletteGeneration(image: ImageData, colorCount: int) returns (colors: seq<Color>)
    requires image.Valid()
    ensures |colors| == |TopBuckets(PixelKeys(image.data), colorCount)|
    ensures forall i :: 0 <= i < |colors| ==>
      colors[i].Key() == TopBuckets(PixelKeys(image.data), colorCount)[i].key &&
      colors[i].a == 255 && colors[i].lab.None? && fresh(colors[i])
  {
    var order, colorMap := CountColors(image);
    var sorted := SortByCount(Buckets(order, colorMap));
    var top := sorted[..SliceEnd(|sorted|, colorCount)];
    SortedKeysInMap(order, colorMap);
    assert top == TopBuckets(PixelKeys(image.data), colorCount);
    colors := ColorsOf(top, colorMap);
  }
}
