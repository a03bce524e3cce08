/** The progress classifier (`categorize_books`, identical in both scripts):
    every raw item is normalised into an entry and placed in exactly one of
    three buckets, keeping the input order inside each bucket. */
module Classifier {
  import opened Wrappers
  import opened Reader

  datatype Bucket = CurrentlyReading | FutureReads | AlreadyRead

  /** The text substituted for an absent title or author. */
  const Unknown: string := "Unknown"

  /** Progress at or above this ratio counts as finished. */
  const FinishedAt: real := 0.99

  /** The progress ratio of an item; an absent key reads as 0. */
  function Progress(item: Item): real {
    item.readingProgress.GetOr(0.0)
  }

  /** The bucket of a progress ratio. The tests run in the script's order:
      exactly 0 first, then the finished threshold, then everything else. */
  function Classify(progress: real): (b: Bucket)
    ensures b == FutureReads <==> progress == 0.0
    ensures progress >= FinishedAt ==> b == AlreadyRead
    ensures 0.0 < progress < FinishedAt ==> b == CurrentlyReading
  {
    if progress == 0.0 then FutureReads
    else if progress >= FinishedAt then AlreadyRead
    else CurrentlyReading
  }

  function BucketOf(item: Item): Bucket {
    Classify(Progress(item))
  }

  /** The entry an item becomes, whatever its bucket. */
  function Normalize(item: Item): (e: Entry)
    ensures item.title == Some(e.title) || (item.title == None && e.title == Unknown)
    ensures item.author == Some(e.author) || (item.author == None && e.author == Unknown)
    ensures item.readingProgress == None ==> e.percent == 0.0
    ensures item.readingProgress.Some? ==> e.percent == item.readingProgress.value * 100.0
  {
    Entry(item.title.GetOr(Unknown), item.author.GetOr(Unknown), Progress(item) * 100.0)
  }

  /** The three lists `categorize_books` returns. */
  datatype Buckets = Buckets(currentlyReading: seq<Entry>, futureReads: seq<Entry>, alreadyRead: seq<Entry>) {

    function Get(b: Bucket): seq<Entry> {
      match b
      case CurrentlyReading => currentlyReading
      case FutureReads => futureReads
      case AlreadyRead => alreadyRead
    }

    /** The number of entries over all three buckets. */
    function Size(): nat {
      |currentlyReading| + |futureReads| + |alreadyRead|
    }

    /** `append` on one bucket: that bucket grows by `e` at its end, the other two are untouched. */
    function Append(b: Bucket, e: Entry): (r: Buckets)
      ensures r.Get(b) == Get(b) + [e]
      ensures forall other :: other != b ==> r.Get(other) == Get(other)
      ensures r.Size() == Size() + 1
    {
      match b
      case CurrentlyReading => this.(currentlyReading := currentlyReading + [e])
      case FutureReads => this.(futureReads := futureReads + [e])
      case AlreadyRead => this.(alreadyRead := alreadyRead + [e])
    }
  }

  const NoBuckets := Buckets([], [], [])

  /** The loop of `categorize_books`: the buckets after the last item has been
      appended are those of all earlier items plus that item's entry. */
  function Categorize(items: seq<Item>): (r: Buckets)
    ensures r.Size() == |items|
    decreases |items|
  {
    if |items| == 0 then NoBuckets
    else
      var last := items[|items| - 1];
      Categorize(items[..|items| - 1]).Append(BucketOf(last), Normalize(last))
  }

  /** Reference definition of one bucket: the entries of the items that belong
      to it, in input order (a filter over the input). */
  function Select(items: seq<Item>, b: Bucket): seq<Entry> {
    if |items| == 0 then []
    else (if BucketOf(items[0]) == b then [Normalize(items[0])] else []) + Select(items[1..], b)
  }

  /** Where item `i` lands inside its bucket: the number of earlier items of the same bucket. */
  function Rank(items: seq<Item>, i: nat): nat
    requires i < |items|
  {
    |Select(items[..i], BucketOf(items[i]))|
  }

  // ---------------------------------------------------------------------------
  // The classification rule

  /** Each bucket is characterised by the progress ratio alone; a negative ratio
      is "currently reading" because it is neither 0 nor at least 0.99. */
  lemma ClassifyRule(progress: real)
    ensures Classify(progress) == FutureReads <==> progress == 0.0
    ensures Classify(progress) == AlreadyRead <==> progress != 0.0 && progress >= FinishedAt
    ensures Classify(progress) == CurrentlyReading <==> progress != 0.0 && progress < FinishedAt
    ensures progress < 0.0 ==> Classify(progress) == CurrentlyReading
  {
  }

  /** The boundary cases: 0, 0.99, just below 0.99, 1.0, and an absent key. */
  lemma ClassifyBoundaries(item: Item)
    ensures Classify(0.0) == FutureReads
    ensures Classify(0.99) == AlreadyRead
    ensures Classify(0.989999) == CurrentlyReading
    ensures Classify(1.0) == AlreadyRead
    ensures item.readingProgress == None ==> BucketOf(item) == FutureReads
  {
  }

  /** An item with no keys at all is an unread "Unknown" by "Unknown" at 0%. */
  lemma EmptyItemDefaults()
    ensures Normalize(Item(None, None, None)) == Entry(Unknown, Unknown, 0.0)
    ensures BucketOf(Item(None, None, None)) == FutureReads
  {
  }

  // ---------------------------------------------------------------------------
  // The partition: total, exclusive, order preserving

  /** Filtering distributes over concatenation, so it keeps input order. */
  lemma {:induction false} SelectAppend(xs: seq<Item>, ys: seq<Item>, b: Bucket)
    ensures Select(xs + ys, b) == Select(xs, b) + Select(ys, b)
    decreases |xs|
  {
    if |xs| == 0 {
      assert xs + ys == ys;
    } else {
      var head := if BucketOf(xs[0]) == b then [Normalize(xs[0])] else [];
      assert (xs + ys)[0] == xs[0];
      assert (xs + ys)[1..] == xs[1..] + ys;
      assert Select(xs + ys, b) == head + Select(xs[1..] + ys, b);
      SelectAppend(xs[1..], ys, b);
      assert head + (Select(xs[1..], b) + Select(ys, b)) == (head + Select(xs[1..], b)) + Select(ys, b);
    }
  }

  /** Each bucket `categorize_books` returns is exactly the in-order filter of the
      input by that bucket. */
  lemma {:induction false} CategorizeIsSelect(items: seq<Item>)
    ensures forall b :: Categorize(items).Get(b) == Select(items, b)
    decreases |items|
  {
    if |items| > 0 {
      var init, last := items[..|items| - 1], items[|items| - 1];
      assert items == init + [last];
      CategorizeIsSelect(init);
      var prev, e := Categorize(init), Normalize(last);
      assert Categorize(items) == prev.Append(BucketOf(last), e);
      forall b
        ensures Categorize(items).Get(b) == Select(items, b)
      {
        assert [last][1..] == [];
        assert Select([last], b) == (if BucketOf(last) == b then [e] else []);
        SelectAppend(init, [last], b);
        if BucketOf(last) == b {
          assert Categorize(items).Get(b) == prev.Get(b) + [e];
        } else {
          assert Categorize(items).Get(b) == prev.Get(b);
          assert Select(init, b) + [] == Select(init, b);
        }
      }
    }
  }

  /** Totality and exclusivity: the three filters together hold one entry per item. */
  lemma {:induction false} SelectPartition(items: seq<Item>)
    ensures |Select(items, CurrentlyReading)| + |Select(items, FutureReads)| + |Select(items, AlreadyRead)| == |items|
  {
    CategorizeIsSelect(items);
    var r := Categorize(items);
    assert r.Get(CurrentlyReading) == r.currentlyReading;
    assert r.Get(FutureReads) == r.futureReads;
    assert r.Get(AlreadyRead) == r.alreadyRead;
  }

  /** Everything in a bucket comes from an input item classified into it. */
  lemma {:induction false} SelectSound(items: seq<Item>, b: Bucket, k: nat)
    requires k < |Select(items, b)|
    ensures exists i :: 0 <= i < |items| && BucketOf(items[i]) == b && Normalize(items[i]) == Select(items, b)[k]
    decreases |items|
  {
    var head := if BucketOf(items[0]) == b then [Normalize(items[0])] else [];
    if k < |head| {
      assert BucketOf(items[0]) == b && Normalize(items[0]) == Select(items, b)[k];
    } else {
      SelectSound(items[1..], b, k - |head|);
      var i :| 0 <= i < |items[1..]| && BucketOf(items[1..][i]) == b && Normalize(items[1..][i]) == Select(items[1..], b)[k - |head|];
      assert items[1..][i] == items[i + 1];
    }
  }

  /** Item `i` is found in its own bucket at position `Rank(items, i)`. */
  lemma BucketPosition(items: seq<Item>, i: nat)
    requires i < |items|
    ensures Rank(items, i) < |Categorize(items).Get(BucketOf(items[i]))|
    ensures Categorize(items).Get(BucketOf(items[i]))[Rank(items, i)] == Normalize(items[i])
  {
    var b := BucketOf(items[i]);
    CategorizeIsSelect(items);
    assert items == items[..i] + items[i..];
    SelectAppend(items[..i], items[i..], b);
    assert Select(items[i..], b) == [Normalize(items[i])] + Select(items[i + 1..], b) by {
      assert items[i..][1..] == items[i + 1..];
    }
  }

  /** Order preservation: of two items in the same bucket, the earlier one sits earlier. */
  lemma OrderPreserved(items: seq<Item>, i: nat, j: nat)
    requires i < j < |items|
    requires BucketOf(items[i]) == BucketOf(items[j])
    ensures Rank(items, i) < Rank(items, j)
  {
    var b := BucketOf(items[i]);
    assert items[..j] == items[..i] + items[i..j];
    SelectAppend(items[..i], items[i..j], b);
    assert Select(items[i..j], b) == [Normalize(items[i])] + Select(items[i + 1..j], b) by {
      assert items[i..j][1..] == items[i + 1..j];
    }
  }
}
