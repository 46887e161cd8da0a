/**
 * The range table shared by all variants: entries `{rangeFrom, rangeTo, data}`
 * that stand for the inclusive address interval `[rangeFrom, rangeTo]`, kept in
 * order of `rangeTo`, and the binary search every lookup starts with.
 */
module RangeTable {
  import opened Machine

  datatype Entry<V> = Entry(rangeFrom: u32, rangeTo: u32, data: V) {
    /** Both end points are inclusive. */
    predicate Contains(ip: u32) {
      rangeFrom <= ip <= rangeTo
    }
  }

  /** The order `sort.Sort` produces with the `Less` of every variant: non-decreasing `rangeTo`. */
  ghost predicate SortedByTo<V>(r: seq<Entry<V>>) {
    forall i, j :: 0 <= i < j < |r| ==> r[i].rangeTo <= r[j].rangeTo
  }

  /** Every entry denotes a non-empty interval. */
  ghost predicate WellFormed<V>(r: seq<Entry<V>>) {
    forall i :: 0 <= i < |r| ==> r[i].rangeFrom <= r[i].rangeTo
  }

  /** No address lies in two entries. */
  ghost predicate Disjoint<V>(r: seq<Entry<V>>) {
    forall i, j, ip: u32 :: 0 <= i < j < |r| && r[i].Contains(ip) ==> !r[j].Contains(ip)
  }

  /** A table as every lookup expects it. */
  ghost predicate Valid<V>(r: seq<Entry<V>>) {
    SortedByTo(r) && WellFormed(r) && Disjoint(r)
  }

  /**
   * A table whose entries are non-empty and each end below the start of the
   * next is valid; this is checked one neighbour pair at a time.
   */
  lemma ChainedIsValid<V>(r: seq<Entry<V>>)
    requires WellFormed(r)
    requires forall i :: 0 < i < |r| ==> r[i - 1].rangeTo < r[i].rangeFrom
    ensures Valid(r)
  {
    assert forall i, j :: 0 <= i < j < |r| ==> r[i].rangeTo < r[j].rangeFrom by {
      forall i, j | 0 <= i < j < |r| ensures r[i].rangeTo < r[j].rangeFrom {
        ChainStep(r, i, j);
      }
    }
  }

  lemma {:induction false} ChainStep<V>(r: seq<Entry<V>>, i: nat, j: nat)
    requires WellFormed(r)
    requires forall k :: 0 < k < |r| ==> r[k - 1].rangeTo < r[k].rangeFrom
    requires i < j < |r|
    ensures r[i].rangeTo < r[j].rangeFrom
    decreases j - i
  {
    if i + 1 < j {
      ChainStep(r, i, j - 1);
    }
  }

  /**
   * Reference definition of what the search computes: the first index whose
   * `rangeTo` is at least `ip`, or `|r|` when there is none.
   */
  function FirstAtLeast<V>(r: seq<Entry<V>>, ip: u32): (k: nat)
    ensures k <= |r|
    ensures forall i :: 0 <= i < k ==> r[i].rangeTo < ip
    ensures k < |r| ==> ip <= r[k].rangeTo
  {
    if r == [] then 0
    else if ip <= r[0].rangeTo then 0
    else 1 + FirstAtLeast(r[1..], ip)
  }

  /**
   * Go's `sort.Search(len(r), func(i int) bool { return ip <= r[i].rangeTo })`:
   * the halving loop over `[i, j)`. Whatever the order of `r`, the result sits
   * between an entry that ends below `ip` and one that does not; on a sorted
   * table it is the first index whose `rangeTo` is at least `ip`.
   */
  method Search<V>(r: seq<Entry<V>>, ip: u32) returns (idx: nat)
    ensures idx <= |r|
    ensures idx == 0 || r[idx - 1].rangeTo < ip
    ensures idx == |r| || ip <= r[idx].rangeTo
    ensures SortedByTo(r) ==> idx == FirstAtLeast(r, ip)
  {
    var i, j := 0, |r|;
    while i < j
      invariant 0 <= i <= j <= |r|
      invariant i == 0 || r[i - 1].rangeTo < ip
      invariant j == |r| || ip <= r[j].rangeTo
    {
      var h := (i + j) / 2;
      if !(ip <= r[h].rangeTo) {
        i := h + 1;
      } else {
        j := h;
      }
    }
    idx := i;
  }

  /**
   * On a valid table the first entry ending at or above `ip` is the only one
   * that can contain `ip`: `ip` is in some entry exactly when it is in that one.
   */
  lemma FirstAtLeastIsOnlyCandidate<V>(r: seq<Entry<V>>, ip: u32, k: nat)
    requires Valid(r)
    requires k < |r| && r[k].Contains(ip)
    ensures FirstAtLeast(r, ip) == k
  {
    var f := FirstAtLeast(r, ip);
    if f != k {
      assert f < k;
      assert r[k].Contains(r[f].rangeTo);
    }
  }

  /** The outcome of an expression that may index past the end of a slice and panic. */
  datatype Outcome<T> = IndexPanic | Returns(value: T)

  /** Replacing every payload, with `rangeFrom` and `rangeTo` kept. */
  function MapData<V, W>(r: seq<Entry<V>>, f: V -> W): (r': seq<Entry<W>>)
    ensures |r'| == |r|
    ensures forall i :: 0 <= i < |r| ==> r'[i] == Entry(r[i].rangeFrom, r[i].rangeTo, f(r[i].data))
  {
    seq(|r|, i requires 0 <= i < |r| => Entry(r[i].rangeFrom, r[i].rangeTo, f(r[i].data)))
  }

  /** The search only looks at `rangeTo`, so changing payloads does not move it. */
  lemma {:induction false} FirstAtLeastMapData<V, W>(r: seq<Entry<V>>, f: V -> W, ip: u32)
    ensures FirstAtLeast(MapData(r, f), ip) == FirstAtLeast(r, ip)
  {
    if r != [] && ip > r[0].rangeTo {
      assert MapData(r, f)[1..] == MapData(r[1..], f);
      FirstAtLeastMapData(r[1..], f, ip);
    }
  }
}
