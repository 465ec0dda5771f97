/** Drawing batches from the packed buckets: a random batch weighted by bucket size, and
    the walk over every bucket in fixed-size batches. The random draws are inputs: the
    uniform number as its integer position among the records, the permutations, and the
    Bernoulli noise used to hide singleton words. */
module Batching {
  import opened Wrappers
  import opened SeqUtil
  import opened Bucketing
  import opened Packing

  /** The packed data set: one slot per bucket and the number of records in each bucket. */
  datatype Data = Data(slots: seq<Slot>, sizes: seq<nat>)

  /** A batch: the bucket it was taken from, the positions of its records in that bucket,
      and their rows, word ids possibly hidden by noise. */
  datatype Batch = Batch(bucket: nat, index: seq<nat>, rows: seq<PackedRow>)

  /** A batch of the walk, with the sentences and comments of its records. */
  datatype Excerpt = Excerpt(batch: Batch, sentences: seq<string>, comments: seq<seq<string>>)

  // ---------------------------------------------------------------------------
  // Shapes

  /** g is a width × depth grid. */
  predicate Grid(g: seq<seq<int>>, width: nat, depth: nat) {
    |g| == width && forall w :: 0 <= w < width ==> |g[w]| == depth
  }

  /** Every cell of g is 0 or 1. */
  predicate Binary(g: seq<seq<int>>) {
    forall w, l :: 0 <= w < |g| && 0 <= l < |g[w]| ==> g[w][l] == 0 || g[w][l] == 1
  }

  /** The word ids and the singleton flags of a row span the bucket's widths; the flags are 0 or 1. */
  predicate RowShaped(row: PackedRow, d: Dims) {
    Grid(row.words, d.bucketLength, d.lemmaLength) && Grid(row.single, d.bucketLength, d.lemmaLength) &&
    Binary(row.single)
  }

  /** A bucket of n records: packed, with n rows, sentences and comments. */
  predicate SlotFilled(slot: Slot, n: nat) {
    slot.Packed? && |slot.rows| == n && |slot.sentences| == n && |slot.comments| == n &&
    forall i :: 0 <= i < n ==> RowShaped(slot.rows[i], slot.dims)
  }

  /** One slot per bucket, and every non-empty bucket packed with as many rows as its size. */
  predicate WellFormed(data: Data) {
    |data.slots| == |data.sizes| &&
    forall b :: 0 <= b < |data.sizes| && data.sizes[b] > 0 ==> SlotFilled(data.slots[b], data.sizes[b])
  }

  // ---------------------------------------------------------------------------
  // Choosing a bucket

  /** The number of records in buckets 0 .. i - 1. */
  function Prefix(sizes: seq<nat>, i: nat): nat
    requires i <= |sizes|
  {
    if i == 0 then 0 else Prefix(sizes, i - 1) + sizes[i - 1]
  }

  /** The number of records in all buckets. */
  function Total(sizes: seq<nat>): nat {
    Prefix(sizes, |sizes|)
  }

  lemma {:induction false} PrefixMonotone(sizes: seq<nat>, i: nat, j: nat)
    requires i <= j <= |sizes|
    ensures Prefix(sizes, i) <= Prefix(sizes, j)
    decreases j - i
  {
    if i < j {
      PrefixMonotone(sizes, i, j - 1);
    }
  }

  /** The scan behind ChooseBucket, from bucket i on. */
  function ChooseFrom(sizes: seq<nat>, r: nat, i: nat): (b: nat)
    requires i < |sizes| && r < Total(sizes)
    requires forall j :: 0 < j <= i ==> Prefix(sizes, j) <= r
    ensures i <= b < |sizes| && r < Prefix(sizes, b + 1)
    ensures forall j :: 0 < j <= b ==> Prefix(sizes, j) <= r
    decreases |sizes| - i
  {
    if r < Prefix(sizes, i + 1) then i else ChooseFrom(sizes, r, i + 1)
  }

  /** The bucket a uniform draw selects. The draw u in [0, 1) enters as r, the integer part of
      u times the number of records: the cumulative share of buckets 0 .. i exceeds u exactly
      when the records in them exceed r. The result is the first bucket whose cumulative
      count exceeds r. */
  function ChooseBucket(sizes: seq<nat>, r: nat): (b: nat)
    requires r < Total(sizes)
    ensures b < |sizes| && r < Prefix(sizes, b + 1)
    ensures forall j :: 0 < j <= b ==> Prefix(sizes, j) <= r
  {
    ChooseFrom(sizes, r, 0)
  }

  /** Bucket b is chosen exactly for the draws in its own interval of the cumulative counts. */
  lemma ChosenInterval(sizes: seq<nat>, r: nat, b: nat)
    requires r < Total(sizes) && b < |sizes|
    ensures ChooseBucket(sizes, r) == b <==> Prefix(sizes, b) <= r < Prefix(sizes, b + 1)
  {
    var c := ChooseBucket(sizes, r);
    if c < b {
      PrefixMonotone(sizes, c + 1, b);
    } else if b < c {
      assert Prefix(sizes, b + 1) <= r;
    } else if 0 < b {
      assert Prefix(sizes, b) <= r;
    }
  }

  /** The chosen bucket is never empty. */
  lemma ChosenNonEmpty(sizes: seq<nat>, r: nat)
    requires r < Total(sizes)
    ensures sizes[ChooseBucket(sizes, r)] > 0
  {
    var b := ChooseBucket(sizes, r);
    ChosenInterval(sizes, r, b);
  }

  /** Of the Total(sizes) equally likely draws, exactly sizes[b] choose bucket b: buckets are
      chosen in proportion to their size. */
  lemma ChoiceProportional(sizes: seq<nat>, b: nat)
    requires b < |sizes|
    ensures |set r: int | 0 <= r < Total(sizes) && ChooseBucket(sizes, r) == b| == sizes[b]
  {
    var chosen := set r: int | 0 <= r < Total(sizes) && ChooseBucket(sizes, r) == b;
    PrefixMonotone(sizes, b + 1, |sizes|);
    forall r: int | 0 <= r < Total(sizes)
      ensures ChooseBucket(sizes, r) == b <==> r in Range(Prefix(sizes, b), Prefix(sizes, b + 1))
    {
      ChosenInterval(sizes, r, b);
    }
    assert chosen == Range(Prefix(sizes, b), Prefix(sizes, b + 1));
    RangeCard(Prefix(sizes, b), Prefix(sizes, b + 1));
  }

  // ---------------------------------------------------------------------------
  // Hiding singleton words

  /** a and b have the same shape. */
  predicate SameShape(a: seq<seq<int>>, b: seq<seq<int>>) {
    |a| == |b| && forall w :: 0 <= w < |a| ==> |a[w]| == |b[w]|
  }

  /** words * (1 - single * noise), cell by cell: a word id whose singleton flag and noise
      draw are both 1 becomes 0, every other id is kept. */
  function NoiseWords(words: seq<seq<int>>, single: seq<seq<int>>, noise: seq<seq<int>>): (r: seq<seq<int>>)
    requires SameShape(words, single) && SameShape(words, noise)
    ensures SameShape(r, words)
    ensures Binary(single) && Binary(noise) ==>
      forall w, l :: 0 <= w < |words| && 0 <= l < |words[w]| ==>
        r[w][l] == if single[w][l] == 1 && noise[w][l] == 1 then 0 else words[w][l]
  {
    seq(|words|, w requires 0 <= w < |words| =>
      seq(|words[w]|, l requires 0 <= l < |words[w]| => words[w][l] * (1 - single[w][l] * noise[w][l])))
  }

  /** A row with its word ids passed through the noise. */
  function NoiseRow(row: PackedRow, noise: seq<seq<int>>): PackedRow
    requires SameShape(row.words, row.single) && SameShape(row.words, noise)
  {
    row.(words := NoiseWords(row.words, row.single, noise))
  }

  /** noise holds n binary grids of the bucket's widths. */
  predicate NoiseGrids(noise: seq<seq<seq<int>>>, d: Dims, n: nat) {
    |noise| == n && forall k :: 0 <= k < n ==> Grid(noise[k], d.bucketLength, d.lemmaLength) && Binary(noise[k])
  }

  // ---------------------------------------------------------------------------
  // One random batch

  /** A random batch: the bucket chosen by the draw r, the first min(batchSize, size) entries
      of a random permutation of its records, and their rows, word ids hidden where a
      singleton meets a noise draw of 1 when noise is given (the replacement probability
      is non-zero). */
  function GetBatch(data: Data, batchSize: nat, r: nat, perm: seq<nat>, noise: Option<seq<seq<seq<int>>>>)
    : (batch: Batch)
    requires WellFormed(data) && r < Total(data.sizes)
    requires IsPermutation(perm, data.sizes[ChooseBucket(data.sizes, r)])
    requires noise.Some? ==>
      var b := ChooseBucket(data.sizes, r);
      data.slots[b].Packed? && NoiseGrids(noise.value, data.slots[b].dims, Min(data.sizes[b], batchSize))
    ensures batch.bucket == ChooseBucket(data.sizes, r) && data.sizes[batch.bucket] > 0
    ensures |batch.index| == Min(data.sizes[batch.bucket], batchSize) && batch.index == perm[..|batch.index|]
    ensures Distinct(batch.index) && forall k :: 0 <= k < |batch.index| ==> batch.index[k] < data.sizes[batch.bucket]
    ensures |batch.rows| == |batch.index|
  {
    ChosenNonEmpty(data.sizes, r);
    var b := ChooseBucket(data.sizes, r);
    var slot := data.slots[b];
    var index := perm[..Min(data.sizes[b], batchSize)];
    var rows := seq(|index|, k requires 0 <= k < |index| => slot.rows[index[k]]);
    Batch(b, index,
      if noise.None? then rows
      else seq(|rows|, k requires 0 <= k < |rows| => NoiseRow(rows[k], noise.value[k])))
  }

  /** Row k of a random batch is the record at index[k] of the chosen bucket, with its word
      ids hidden exactly where its singleton flag and the noise draw are both 1. */
  lemma BatchRows(data: Data, batchSize: nat, r: nat, perm: seq<nat>, noise: Option<seq<seq<seq<int>>>>, k: nat)
    requires WellFormed(data) && r < Total(data.sizes)
    requires IsPermutation(perm, data.sizes[ChooseBucket(data.sizes, r)])
    requires noise.Some? ==>
      var b := ChooseBucket(data.sizes, r);
      data.slots[b].Packed? && NoiseGrids(noise.value, data.slots[b].dims, Min(data.sizes[b], batchSize))
    requires k < |GetBatch(data, batchSize, r, perm, noise).rows|
    ensures var batch := GetBatch(data, batchSize, r, perm, noise);
      var source := data.slots[batch.bucket].rows[batch.index[k]];
      batch.rows[k].(words := source.words) == source && SameShape(batch.rows[k].words, source.words) &&
      (noise.None? ==> batch.rows[k] == source) &&
      (noise.Some? ==> forall w, l :: 0 <= w < |source.words| && 0 <= l < |source.words[w]| ==>
        batch.rows[k].words[w][l] ==
          if source.single[w][l] == 1 && noise.value[k][w][l] == 1 then 0 else source.words[w][l])
  {
    var batch := GetBatch(data, batchSize, r, perm, noise);
    var source := data.slots[batch.bucket].rows[batch.index[k]];
    assert RowShaped(source, data.slots[batch.bucket].dims);
  }

  // ---------------------------------------------------------------------------
  // Unpacking the chosen bucket as written

  /** The number of parts of the tuple the packer stores for a slot: encoder, decoder,
      sentences and comments for a packed bucket, the pair (1, 1) for an empty one. */
  function TupleParts(slot: Slot): nat {
    if slot.Packed? then 4 else 2
  }

  /** The outcome of unpacking a slot's tuple into names: the slot, or a ValueError. */
  datatype Unpacking = Unpacked(slot: Slot) | UnpackError

  /** Unpacking into a fixed number of names succeeds when the tuple has that many parts. */
  function Unpack(slot: Slot, names: nat): Unpacking {
    if TupleParts(slot) == names then Unpacked(slot) else UnpackError
  }

  /** The unpacking of the chosen bucket as written binds three names, and no slot's tuple
      has three parts, so it always raises a ValueError. */
  function UnpackAsWritten(slot: Slot): (u: Unpacking)
    ensures u == UnpackError
  {
    Unpack(slot, 3)
  }

  /** Every draw chooses a packed bucket, whose four-part tuple the unpacking as written
      rejects; unpacking it into four names gives the slot GetBatch reads. */
  lemma GetBatchUnpackFails(data: Data, r: nat)
    requires WellFormed(data) && r < Total(data.sizes)
    ensures var slot := data.slots[ChooseBucket(data.sizes, r)];
      slot.Packed? && TupleParts(slot) == 4 &&
      UnpackAsWritten(slot) == UnpackError && Unpack(slot, 4) == Unpacked(slot)
  {
    ChosenNonEmpty(data.sizes, r);
  }

  // ---------------------------------------------------------------------------
  // Walking every bucket in batches

  /** The concatenation of a sequence of sequences. */
  function Flatten<T>(s: seq<seq<T>>): seq<T> {
    if |s| == 0 then [] else s[0] + Flatten(s[1..])
  }

  /** order cut into consecutive pieces of bs entries, the last one possibly shorter. */
  function Chunks(order: seq<nat>, bs: nat): (r: seq<seq<nat>>)
    requires bs >= 1
    ensures forall k :: 0 <= k < |r| ==> 1 <= |r[k]| <= bs
    decreases |order|
  {
    if |order| == 0 then []
    else if |order| <= bs then [order]
    else [order[..bs]] + Chunks(order[bs..], bs)
  }

  /** The pieces put back together give the whole order: every position is in exactly one batch. */
  lemma {:induction false} ChunksCover(order: seq<nat>, bs: nat)
    requires bs >= 1
    ensures Flatten(Chunks(order, bs)) == order
    decreases |order|
  {
    if |order| > bs {
      ChunksCover(order[bs..], bs);
      assert order[..bs] + order[bs..] == order;
    }
  }

  /** The entries of s from position k on, none when k is past the end. */
  function Drop(s: seq<nat>, k: nat): seq<nat> {
    if k >= |s| then [] else s[k..]
  }

  /** Every index of the piece names a record of the slot. */
  predicate Indexes(chunk: seq<nat>, slot: Slot, rows: seq<PackedRow>) {
    slot.Packed? &&
    forall k :: 0 <= k < |chunk| ==> chunk[k] < |rows| && chunk[k] < |slot.sentences| && chunk[k] < |slot.comments|
  }

  /** Every piece indexes records of the slot. */
  predicate AllIndexes(chunks: seq<seq<nat>>, slot: Slot, rows: seq<PackedRow>) {
    forall c :: 0 <= c < |chunks| ==> Indexes(chunks[c], slot, rows)
  }

  /** The batch of one piece of bucket b. */
  function ExcerptOf(slot: Slot, rows: seq<PackedRow>, b: nat, chunk: seq<nat>): Excerpt
    requires Indexes(chunk, slot, rows)
  {
    Excerpt(Batch(b, chunk, seq(|chunk|, k requires 0 <= k < |chunk| => rows[chunk[k]])),
            seq(|chunk|, k requires 0 <= k < |chunk| => slot.sentences[chunk[k]]),
            seq(|chunk|, k requires 0 <= k < |chunk| => slot.comments[chunk[k]]))
  }

  /** The batches of the pieces, in order. */
  function Excerpts(slot: Slot, rows: seq<PackedRow>, b: nat, chunks: seq<seq<nat>>): seq<Excerpt>
    requires AllIndexes(chunks, slot, rows)
  {
    if |chunks| == 0 then []
    else [ExcerptOf(slot, rows, b, chunks[0])] + Excerpts(slot, rows, b, chunks[1..])
  }

  /** The whole-bucket noise fits every non-empty bucket. */
  predicate NoiseFits(data: Data, noise: seq<seq<seq<seq<int>>>>)
    requires WellFormed(data)
  {
    |noise| == |data.sizes| &&
    forall b :: 0 <= b < |data.sizes| && data.sizes[b] > 0 ==>
      NoiseGrids(noise[b], data.slots[b].dims, data.sizes[b])
  }

  /** The rows of non-empty bucket b after the whole-bucket noise, when there is noise. */
  function BucketRows(data: Data, b: nat, noise: Option<seq<seq<seq<seq<int>>>>>): (rows: seq<PackedRow>)
    requires WellFormed(data) && b < |data.sizes| && data.sizes[b] > 0
    requires noise.Some? ==> NoiseFits(data, noise.value)
    ensures |rows| == data.sizes[b]
  {
    var slot := data.slots[b];
    if noise.None? then slot.rows
    else seq(|slot.rows|, j requires 0 <= j < |slot.rows| => NoiseRow(slot.rows[j], noise.value[b][j]))
  }

  /** orders gives, for every bucket, a permutation of its record positions. */
  predicate Orders(orders: seq<seq<nat>>, sizes: seq<nat>) {
    |orders| == |sizes| && forall b :: 0 <= b < |sizes| ==> IsPermutation(orders[b], sizes[b])
  }

  /** The batches of bucket b, taking its records in the given order; none for an empty bucket. */
  function BucketRun(data: Data, bs: nat, b: nat, order: seq<nat>, noise: Option<seq<seq<seq<seq<int>>>>>)
    : seq<Excerpt>
    requires WellFormed(data) && bs >= 1 && b < |data.sizes| && IsPermutation(order, data.sizes[b])
    requires noise.Some? ==> NoiseFits(data, noise.value)
  {
    if data.sizes[b] == 0 then []
    else
      var rows := BucketRows(data, b, noise);
      ChunkIndexes(order, bs, data.slots[b], rows);
      Excerpts(data.slots[b], rows, b, Chunks(order, bs))
  }

  /** Pieces of an order made of valid indices hold valid indices. */
  lemma {:induction false} ChunkIndexes(order: seq<nat>, bs: nat, slot: Slot, rows: seq<PackedRow>)
    requires bs >= 1 && Indexes(order, slot, rows)
    ensures AllIndexes(Chunks(order, bs), slot, rows)
    decreases |order|
  {
    if |order| > bs {
      ChunkIndexes(order[bs..], bs, slot, rows);
    }
  }

  /** The batches of the buckets in visit order. */
  function Walk(data: Data, bs: nat, visit: seq<nat>, orders: seq<seq<nat>>,
                noise: Option<seq<seq<seq<seq<int>>>>>): seq<Excerpt>
    requires WellFormed(data) && bs >= 1 && Orders(orders, data.sizes)
    requires forall t :: 0 <= t < |visit| ==> visit[t] < |data.sizes|
    requires noise.Some? ==> NoiseFits(data, noise.value)
  {
    if |visit| == 0 then []
    else Walk(data, bs, visit[..|visit| - 1], orders, noise) + BucketRun(data, bs, visit[|visit| - 1], orders[visit[|visit| - 1]], noise)
  }

  /** The bucket order of the walk: shuffled, or 0, 1, 2, ... */
  function Visit(shuffle: bool, bucketOrder: seq<nat>, n: nat): seq<nat> {
    if shuffle then bucketOrder else Iota(n)
  }

  /** The record order within each bucket: shuffled, or by position. */
  function RowOrders(shuffle: bool, rowPerms: seq<seq<nat>>, sizes: seq<nat>): seq<seq<nat>> {
    if shuffle then rowPerms else seq(|sizes|, b requires 0 <= b < |sizes| => Iota(sizes[b]))
  }

  lemma IotaIsPermutation(n: nat)
    ensures IsPermutation(Iota(n), n)
  {
  }

  lemma RowOrdersAreOrders(shuffle: bool, rowPerms: seq<seq<nat>>, sizes: seq<nat>)
    requires shuffle ==> Orders(rowPerms, sizes)
    ensures Orders(RowOrders(shuffle, rowPerms, sizes), sizes)
  {
    if !shuffle {
      forall b | 0 <= b < |sizes|
        ensures IsPermutation(RowOrders(shuffle, rowPerms, sizes)[b], sizes[b])
      {
        IotaIsPermutation(sizes[b]);
      }
    }
  }

  /** Walks the buckets (in shuffled order when shuffle is set), skips the empty ones, applies
      the whole-bucket noise, and yields the records in batches of bs, in shuffled order
      within the bucket when shuffle is set. */
  method IterateBatches(data: Data, bs: nat, shuffle: bool, bucketOrder: seq<nat>, rowPerms: seq<seq<nat>>,
                        noise: Option<seq<seq<seq<seq<int>>>>>)
    returns (out: seq<Excerpt>)
    requires WellFormed(data) && bs >= 1
    requires shuffle ==> IsPermutation(bucketOrder, |data.sizes|) && Orders(rowPerms, data.sizes)
    requires noise.Some? ==> NoiseFits(data, noise.value)
    ensures Orders(RowOrders(shuffle, rowPerms, data.sizes), data.sizes)
    ensures IsPermutation(Visit(shuffle, bucketOrder, |data.sizes|), |data.sizes|)
    ensures out == Walk(data, bs, Visit(shuffle, bucketOrder, |data.sizes|),
                        RowOrders(shuffle, rowPerms, data.sizes), noise)
  {
    var visit := if shuffle then bucketOrder else Iota(|data.sizes|);
    IotaIsPermutation(|data.sizes|);
    ghost var orders := RowOrders(shuffle, rowPerms, data.sizes);
    RowOrdersAreOrders(shuffle, rowPerms, data.sizes);
    out := [];
    for t := 0 to |visit|
      invariant out == Walk(data, bs, visit[..t], orders, noise)
    {
      var b := visit[t];
      var order := if shuffle then rowPerms[b] else Iota(data.sizes[b]);
      assert order == orders[b];
      var run := VisitBucket(data, bs, b, order, noise);
      WalkStep(data, bs, visit, orders, noise, t);
      out := out + run;
    }
    assert visit[..|visit|] == visit;
  }

  /** One more bucket of the visit order appends that bucket's batches to the walk. */
  lemma WalkStep(data: Data, bs: nat, visit: seq<nat>, orders: seq<seq<nat>>,
                 noise: Option<seq<seq<seq<seq<int>>>>>, t: nat)
    requires WellFormed(data) && bs >= 1 && Orders(orders, data.sizes)
    requires forall k :: 0 <= k < |visit| ==> visit[k] < |data.sizes|
    requires noise.Some? ==> NoiseFits(data, noise.value)
    requires t < |visit|
    ensures Walk(data, bs, visit[..t + 1], orders, noise) ==
      Walk(data, bs, visit[..t], orders, noise) + BucketRun(data, bs, visit[t], orders[visit[t]], noise)
  {
    assert visit[..t + 1][..t] == visit[..t];
  }

  /** One bucket of the walk: nothing for an empty bucket; otherwise the whole-bucket noise,
      then the batches in the given record order. */
  method VisitBucket(data: Data, bs: nat, b: nat, order: seq<nat>, noise: Option<seq<seq<seq<seq<int>>>>>)
    returns (run: seq<Excerpt>)
    requires WellFormed(data) && bs >= 1 && b < |data.sizes| && IsPermutation(order, data.sizes[b])
    requires noise.Some? ==> NoiseFits(data, noise.value)
    ensures run == BucketRun(data, bs, b, order, noise)
  {
    var n := data.sizes[b];
    if n == 0 {
      return [];
    }
    var slot := data.slots[b];
    var rows := slot.rows;
    if noise.Some? {
      rows := seq(|slot.rows|, j requires 0 <= j < |slot.rows| => NoiseRow(slot.rows[j], noise.value[b][j]));
    }
    assert rows == BucketRows(data, b, noise);
    run := BucketBatches(slot, rows, b, order, bs);
  }

  /** The batches of one bucket: consecutive pieces of bs entries of the record order. */
  method BucketBatches(slot: Slot, rows: seq<PackedRow>, b: nat, order: seq<nat>, bs: nat)
    returns (run: seq<Excerpt>)
    requires bs >= 1 && Indexes(order, slot, rows)
    ensures AllIndexes(Chunks(order, bs), slot, rows)
    ensures run == Excerpts(slot, rows, b, Chunks(order, bs))
  {
    ChunkIndexes(order, bs, slot, rows);
    ghost var all := Excerpts(slot, rows, b, Chunks(order, bs));
    run := [];
    var start := 0;
    YieldedStart(slot, rows, b, order, bs);
    while start < |order|
      invariant Yielded(slot, rows, b, order, bs, start, run, all)
      decreases |order| - start
    {
      var excerpt := order[start .. Min(start + bs, |order|)];
      BatchStep(slot, rows, b, order, bs, start, run, all);
      run := run + [ExcerptOf(slot, rows, b, excerpt)];
      start := start + bs;
    }
    YieldedDone(slot, rows, b, order, bs, start, run, all);
  }

  /** Before the first piece nothing is yielded and every piece is left. */
  lemma YieldedStart(slot: Slot, rows: seq<PackedRow>, b: nat, order: seq<nat>, bs: nat)
    requires bs >= 1 && AllIndexes(Chunks(order, bs), slot, rows)
    ensures Yielded(slot, rows, b, order, bs, 0, [], Excerpts(slot, rows, b, Chunks(order, bs)))
  {
    assert Drop(order, 0) == order;
  }

  /** Past the end of the order, run holds every batch. */
  lemma YieldedDone(slot: Slot, rows: seq<PackedRow>, b: nat, order: seq<nat>, bs: nat, start: nat,
                    run: seq<Excerpt>, all: seq<Excerpt>)
    requires bs >= 1 && Yielded(slot, rows, b, order, bs, start, run, all) && start >= |order|
    ensures run == all
  {
    assert Drop(order, start) == [];
  }

  /** After the pieces before start, run followed by the batches of the pieces left, which
      index records of the slot, is all the batches. */
  predicate Yielded(slot: Slot, rows: seq<PackedRow>, b: nat, order: seq<nat>, bs: nat, start: nat,
                    run: seq<Excerpt>, all: seq<Excerpt>)
    requires bs >= 1
  {
    AllIndexes(Chunks(Drop(order, start), bs), slot, rows) &&
    all == run + Excerpts(slot, rows, b, Chunks(Drop(order, start), bs))
  }

  /** The batch loop keeps its invariant: what is left after the next piece is what
      remains to be yielded. */
  lemma BatchStep(slot: Slot, rows: seq<PackedRow>, b: nat, order: seq<nat>, bs: nat, start: nat,
                  run: seq<Excerpt>, all: seq<Excerpt>)
    requires bs >= 1 && start < |order| && Indexes(order, slot, rows)
    requires Yielded(slot, rows, b, order, bs, start, run, all)
    ensures Indexes(order[start .. Min(start + bs, |order|)], slot, rows)
    ensures Yielded(slot, rows, b, order, bs, start + bs,
                    run + [ExcerptOf(slot, rows, b, order[start .. Min(start + bs, |order|)])], all)
  {
    var excerpt := order[start .. Min(start + bs, |order|)];
    DropStep(order, start, bs, slot, rows);
    ChunkIndexes(Drop(order, start + bs), bs, slot, rows);
    ExcerptsCons(slot, rows, b, excerpt, Chunks(Drop(order, start + bs), bs));
    var next := ExcerptOf(slot, rows, b, excerpt);
    var rest := Excerpts(slot, rows, b, Chunks(Drop(order, start + bs), bs));
    assert Excerpts(slot, rows, b, Chunks(Drop(order, start), bs)) == [next] + rest;
    assert run + ([next] + rest) == (run + [next]) + rest;
  }

  lemma ExcerptsCons(slot: Slot, rows: seq<PackedRow>, b: nat, chunk: seq<nat>, chunks: seq<seq<nat>>)
    requires Indexes(chunk, slot, rows)
    requires AllIndexes(chunks, slot, rows)
    ensures AllIndexes([chunk] + chunks, slot, rows)
    ensures Excerpts(slot, rows, b, [chunk] + chunks) == [ExcerptOf(slot, rows, b, chunk)] + Excerpts(slot, rows, b, chunks)
  {
    assert ([chunk] + chunks)[1..] == chunks;
  }

  /** One step of the batch loop: the next piece is the next bs entries from start, and what
      remains starts bs entries later. */
  lemma DropStep(order: seq<nat>, start: nat, bs: nat, slot: Slot, rows: seq<PackedRow>)
    requires bs >= 1 && start < |order| && Indexes(order, slot, rows)
    ensures Indexes(order[start .. Min(start + bs, |order|)], slot, rows)
    ensures Chunks(Drop(order, start), bs) ==
      [order[start .. Min(start + bs, |order|)]] + Chunks(Drop(order, start + bs), bs)
  {
    var rest := order[start..];
    assert Drop(order, start) == rest;
    if |rest| > bs {
      assert rest[..bs] == order[start .. start + bs];
      assert rest[bs..] == order[start + bs..] == Drop(order, start + bs);
      assert Chunks(rest, bs) == [rest[..bs]] + Chunks(rest[bs..], bs);
    } else {
      assert order[start .. Min(start + bs, |order|)] == rest;
      assert Drop(order, start + bs) == [];
      assert Chunks(rest, bs) == [rest];
    }
  }

  // ---------------------------------------------------------------------------
  // What the walk covers

  /** The pair (b, x) for every position x of s. */
  function Tag(b: nat, s: seq<nat>): (r: seq<(nat, nat)>)
    ensures |r| == |s| && forall k :: 0 <= k < |s| ==> r[k] == (b, s[k])
  {
    seq(|s|, k requires 0 <= k < |s| => (b, s[k]))
  }

  /** The (bucket, position) pairs of the records of the excerpts, in order. */
  function Pairs(out: seq<Excerpt>): seq<(nat, nat)> {
    if |out| == 0 then [] else Tag(out[0].batch.bucket, out[0].batch.index) + Pairs(out[1..])
  }

  lemma {:induction false} PairsAppend(a: seq<Excerpt>, c: seq<Excerpt>)
    ensures Pairs(a + c) == Pairs(a) + Pairs(c)
    decreases |a|
  {
    if |a| > 0 {
      assert (a + c)[1..] == a[1..] + c;
      PairsAppend(a[1..], c);
    } else {
      assert a + c == c;
    }
  }

  /** The records of a bucket's batches are its pieces put together. */
  lemma {:induction false} ExcerptsPairs(slot: Slot, rows: seq<PackedRow>, b: nat, chunks: seq<seq<nat>>)
    requires AllIndexes(chunks, slot, rows)
    ensures Pairs(Excerpts(slot, rows, b, chunks)) == Tag(b, Flatten(chunks))
    decreases |chunks|
  {
    if |chunks| > 0 {
      ExcerptsPairs(slot, rows, b, chunks[1..]);
      assert Tag(b, chunks[0] + Flatten(chunks[1..])) == Tag(b, chunks[0]) + Tag(b, Flatten(chunks[1..]));
    }
  }

  /** The records of bucket b's batches are its records in the given order. */
  lemma BucketRunPairs(data: Data, bs: nat, b: nat, order: seq<nat>, noise: Option<seq<seq<seq<seq<int>>>>>)
    requires WellFormed(data) && bs >= 1 && b < |data.sizes| && IsPermutation(order, data.sizes[b])
    requires noise.Some? ==> NoiseFits(data, noise.value)
    ensures Pairs(BucketRun(data, bs, b, order, noise)) == Tag(b, order)
  {
    if data.sizes[b] > 0 {
      var rows := BucketRows(data, b, noise);
      ChunkIndexes(order, bs, data.slots[b], rows);
      ExcerptsPairs(data.slots[b], rows, b, Chunks(order, bs));
      ChunksCover(order, bs);
    }
  }

  /** The records of the buckets of visit, bucket by bucket in the given orders. */
  function AllTags(visit: seq<nat>, orders: seq<seq<nat>>): seq<(nat, nat)>
    requires forall t :: 0 <= t < |visit| ==> visit[t] < |orders|
  {
    if |visit| == 0 then []
    else AllTags(visit[..|visit| - 1], orders) + Tag(visit[|visit| - 1], orders[visit[|visit| - 1]])
  }

  lemma {:induction false} WalkPairs(data: Data, bs: nat, visit: seq<nat>, orders: seq<seq<nat>>,
                                     noise: Option<seq<seq<seq<seq<int>>>>>)
    requires WellFormed(data) && bs >= 1 && Orders(orders, data.sizes)
    requires forall t :: 0 <= t < |visit| ==> visit[t] < |data.sizes|
    requires noise.Some? ==> NoiseFits(data, noise.value)
    ensures Pairs(Walk(data, bs, visit, orders, noise)) == AllTags(visit, orders)
    decreases |visit|
  {
    if |visit| > 0 {
      var last := visit[|visit| - 1];
      WalkPairs(data, bs, visit[..|visit| - 1], orders, noise);
      PairsAppend(Walk(data, bs, visit[..|visit| - 1], orders, noise), BucketRun(data, bs, last, orders[last], noise));
      BucketRunPairs(data, bs, last, orders[last], noise);
    }
  }

  /** A pair occurs in Tag(b, s), for s without repeats, once when it is (b, x) for some x of s. */
  lemma {:induction false} TagCount(b: nat, s: seq<nat>, c: nat, x: nat)
    requires Distinct(s)
    ensures multiset(Tag(b, s))[(c, x)] == if c == b && x in s then 1 else 0
    decreases |s|
  {
    if |s| > 0 {
      var front := s[..|s| - 1];
      assert front + [s[|s| - 1]] == s;
      assert Tag(b, s) == Tag(b, front) + Tag(b, [s[|s| - 1]]);
      TagCount(b, front, c, x);
      assert x in s <==> x in front || x == s[|s| - 1];
    }
  }

  lemma {:induction false} AllTagsCount(visit: seq<nat>, orders: seq<seq<nat>>, c: nat, x: nat)
    requires forall t :: 0 <= t < |visit| ==> visit[t] < |orders|
    requires Distinct(visit) && forall b :: 0 <= b < |orders| ==> Distinct(orders[b])
    ensures multiset(AllTags(visit, orders))[(c, x)] == if c in visit && x in orders[c] then 1 else 0
    decreases |visit|
  {
    if |visit| > 0 {
      var front := visit[..|visit| - 1];
      var last := visit[|visit| - 1];
      AllTagsCount(front, orders, c, x);
      TagCount(last, orders[last], c, x);
      assert visit == front + [last];
      assert c in visit <==> c in front || c == last;
    }
  }

  /** A sequence without repeats has as many distinct elements as entries. */
  lemma {:induction false} DistinctCard(s: seq<nat>)
    requires Distinct(s)
    ensures |set x: int | x in s| == |s|
    decreases |s|
  {
    if |s| > 0 {
      var front := s[..|s| - 1];
      DistinctCard(front);
      assert (set x: int | x in s) == (set x: int | x in front) + {s[|s| - 1]};
    }
  }

  /** A permutation of 0 .. n - 1 holds every number below n. */
  lemma PermutationMembers(s: seq<nat>, n: nat, y: nat)
    requires IsPermutation(s, n)
    ensures y in s <==> y < n
  {
    if y < n && y !in s {
      var elems := set x: int | x in s;
      DistinctCard(s);
      SubsetCard(elems, Range(0, n) - {y});
      RangeCard(0, n);
    }
  }

  /** The walk yields every record of every bucket exactly once, and nothing else. */
  lemma EveryRecordOnce(data: Data, bs: nat, visit: seq<nat>, orders: seq<seq<nat>>,
                        noise: Option<seq<seq<seq<seq<int>>>>>, c: nat, x: nat)
    requires WellFormed(data) && bs >= 1 && Orders(orders, data.sizes)
    requires IsPermutation(visit, |data.sizes|)
    requires noise.Some? ==> NoiseFits(data, noise.value)
    ensures multiset(Pairs(Walk(data, bs, visit, orders, noise)))[(c, x)] ==
      if c < |data.sizes| && x < data.sizes[c] then 1 else 0
  {
    WalkPairs(data, bs, visit, orders, noise);
    AllTagsCount(visit, orders, c, x);
    PermutationMembers(visit, |data.sizes|, c);
    if c < |data.sizes| {
      PermutationMembers(orders[c], data.sizes[c], x);
    }
  }

  /** Excerpts yields one batch per piece, in order. */
  lemma {:induction false} ExcerptsAt(slot: Slot, rows: seq<PackedRow>, b: nat, chunks: seq<seq<nat>>)
    requires AllIndexes(chunks, slot, rows)
    ensures |Excerpts(slot, rows, b, chunks)| == |chunks|
    ensures forall k :: 0 <= k < |chunks| ==> Excerpts(slot, rows, b, chunks)[k] == ExcerptOf(slot, rows, b, chunks[k])
    decreases |chunks|
  {
    if |chunks| > 0 {
      ExcerptsAt(slot, rows, b, chunks[1..]);
    }
  }

  /** Every batch of bucket b's run is taken from b and holds between 1 and bs records. */
  lemma BucketRunSizes(data: Data, bs: nat, b: nat, order: seq<nat>, noise: Option<seq<seq<seq<seq<int>>>>>)
    requires WellFormed(data) && bs >= 1 && b < |data.sizes| && IsPermutation(order, data.sizes[b])
    requires noise.Some? ==> NoiseFits(data, noise.value)
    ensures var run := BucketRun(data, bs, b, order, noise);
      forall k :: 0 <= k < |run| ==>
        run[k].batch.bucket == b && data.sizes[b] > 0 && 1 <= |run[k].batch.index| <= bs
  {
    if data.sizes[b] > 0 {
      var rows := BucketRows(data, b, noise);
      ChunkIndexes(order, bs, data.slots[b], rows);
      ExcerptsAt(data.slots[b], rows, b, Chunks(order, bs));
    }
  }

  /** Every batch comes from a non-empty bucket and holds between 1 and bs records. */
  predicate Sized(out: seq<Excerpt>, sizes: seq<nat>, bs: nat) {
    forall k :: 0 <= k < |out| ==>
      out[k].batch.bucket < |sizes| && sizes[out[k].batch.bucket] > 0 && 1 <= |out[k].batch.index| <= bs
  }

  /** The walk never yields an empty batch, never more than bs records at once, and nothing
      from an empty bucket. */
  lemma {:induction false} WalkSizes(data: Data, bs: nat, visit: seq<nat>, orders: seq<seq<nat>>,
                                     noise: Option<seq<seq<seq<seq<int>>>>>)
    requires WellFormed(data) && bs >= 1 && Orders(orders, data.sizes)
    requires forall t :: 0 <= t < |visit| ==> visit[t] < |data.sizes|
    requires noise.Some? ==> NoiseFits(data, noise.value)
    ensures Sized(Walk(data, bs, visit, orders, noise), data.sizes, bs)
    decreases |visit|
  {
    if |visit| > 0 {
      var last := visit[|visit| - 1];
      var front := Walk(data, bs, visit[..|visit| - 1], orders, noise);
      var run := BucketRun(data, bs, last, orders[last], noise);
      WalkSizes(data, bs, visit[..|visit| - 1], orders, noise);
      BucketRunSizes(data, bs, last, orders[last], noise);
      assert Walk(data, bs, visit, orders, noise) == front + run;
      SizedAppend(front, run, data.sizes, bs);
    }
  }

  lemma SizedAppend(a: seq<Excerpt>, c: seq<Excerpt>, sizes: seq<nat>, bs: nat)
    requires Sized(a, sizes, bs) && Sized(c, sizes, bs)
    ensures Sized(a + c, sizes, bs)
  {
    assert forall k :: 0 <= k < |c| ==> (a + c)[|a| + k] == c[k];
  }

  /** Batch e carries, for each of its records, that record's sentence and comments, as
      lists in the order of its rows. */
  predicate TextsAligned(data: Data, e: Excerpt) {
    e.batch.bucket < |data.slots| &&
    var slot := data.slots[e.batch.bucket];
    slot.Packed? &&
    |e.sentences| == |e.batch.index| && |e.comments| == |e.batch.index| && |e.batch.rows| == |e.batch.index| &&
    forall k :: 0 <= k < |e.batch.index| ==>
      e.batch.index[k] < |slot.sentences| && e.batch.index[k] < |slot.comments| &&
      e.sentences[k] == slot.sentences[e.batch.index[k]] && e.comments[k] == slot.comments[e.batch.index[k]]
  }

  /** Every batch of out carries the texts of its records. */
  predicate AllTextsAligned(data: Data, out: seq<Excerpt>) {
    forall k :: 0 <= k < |out| ==> TextsAligned(data, out[k])
  }

  lemma BucketRunTexts(data: Data, bs: nat, b: nat, order: seq<nat>, noise: Option<seq<seq<seq<seq<int>>>>>)
    requires WellFormed(data) && bs >= 1 && b < |data.sizes| && IsPermutation(order, data.sizes[b])
    requires noise.Some? ==> NoiseFits(data, noise.value)
    ensures AllTextsAligned(data, BucketRun(data, bs, b, order, noise))
  {
    if data.sizes[b] > 0 {
      var rows := BucketRows(data, b, noise);
      var chunks := Chunks(order, bs);
      ChunkIndexes(order, bs, data.slots[b], rows);
      ExcerptsAt(data.slots[b], rows, b, chunks);
      forall k | 0 <= k < |chunks| ensures TextsAligned(data, ExcerptOf(data.slots[b], rows, b, chunks[k])) {
        assert Indexes(chunks[k], data.slots[b], rows);
      }
    }
  }

  /** Every batch of the walk, shuffled or not, carries the sentences and comments of its
      own records, one entry per record in row order. */
  lemma {:induction false} WalkTexts(data: Data, bs: nat, visit: seq<nat>, orders: seq<seq<nat>>,
                                     noise: Option<seq<seq<seq<seq<int>>>>>)
    requires WellFormed(data) && bs >= 1 && Orders(orders, data.sizes)
    requires forall t :: 0 <= t < |visit| ==> visit[t] < |data.sizes|
    requires noise.Some? ==> NoiseFits(data, noise.value)
    ensures AllTextsAligned(data, Walk(data, bs, visit, orders, noise))
    decreases |visit|
  {
    if |visit| > 0 {
      var last := visit[|visit| - 1];
      var front := Walk(data, bs, visit[..|visit| - 1], orders, noise);
      var run := BucketRun(data, bs, last, orders[last], noise);
      WalkTexts(data, bs, visit[..|visit| - 1], orders, noise);
      BucketRunTexts(data, bs, last, orders[last], noise);
      assert Walk(data, bs, visit, orders, noise) == front + run;
      TextsAppend(data, front, run);
    }
  }

  lemma TextsAppend(data: Data, a: seq<Excerpt>, c: seq<Excerpt>)
    requires AllTextsAligned(data, a) && AllTextsAligned(data, c)
    ensures AllTextsAligned(data, a + c)
  {
    assert forall k :: 0 <= k < |c| ==> (a + c)[|a| + k] == c[k];
  }

  // ---------------------------------------------------------------------------
  // Indexing the sentence lists as written

  /** What the walk's last two fields are as written, for a list of sentences or comments
      indexed by the excerpt. Without shuffle the excerpt is a slice, which gives the
      sub-list. With shuffle it is an index tensor: a list converts a tensor of one entry to
      a plain index and gives that bare entry, and raises a TypeError for a longer one. */
  datatype Selection<T> = Items(items: seq<T>) | Bare(item: T) | TypeError

  /** The selection of the batch that starts at position start of the record order. */
  function SelectAsWritten<T>(list: seq<T>, shuffle: bool, order: seq<nat>, start: nat, bs: nat): (s: Selection<T>)
    requires start < |order| == |list| && forall k :: 0 <= k < |order| ==> order[k] < |list|
    ensures !shuffle ==> s.Items? && s.items == list[start .. Min(start + bs, |list|)]
    ensures shuffle ==> (s.Bare? <==> Min(start + bs, |order|) - start == 1)
    ensures shuffle && bs >= 2 ==> (s.TypeError? <==> start + 1 < |order|)
  {
    var stop := Min(start + bs, |order|);
    if !shuffle then Items(list[start..stop])
    else if stop - start == 1 then Bare(list[order[start]])
    else TypeError
  }

  /** Without shuffle, the slice gives exactly the texts of the batch. */
  lemma SlicedSelectionAgrees(slot: Slot, rows: seq<PackedRow>, b: nat, start: nat, bs: nat)
    requires slot.Packed? && |rows| == |slot.sentences| == |slot.comments| && start < |slot.sentences| && bs >= 1
    ensures var order := Iota(|slot.sentences|);
      var chunk := order[start .. Min(start + bs, |order|)];
      Indexes(chunk, slot, rows) &&
      SelectAsWritten(slot.sentences, false, order, start, bs) == Items(ExcerptOf(slot, rows, b, chunk).sentences) &&
      SelectAsWritten(slot.comments, false, order, start, bs) == Items(ExcerptOf(slot, rows, b, chunk).comments)
  {
  }

  /** With shuffle, a batch of two records has no sentence list as written: a bucket with
      sentences "a" and "b", batch size 2, and the permutation [1, 0] raises a TypeError,
      where the batch's texts are ["b", "a"]. */
  lemma ShuffledSelectionFails()
    ensures var row := PackedRow([], [], [], [], [], [], [], 1, [], [], [], [], [], [], 1);
      var slot := Packed(Dims(1, 0, 0), [row, row], ["a", "b"], [[], []]);
      Indexes([1, 0], slot, slot.rows) &&
      SelectAsWritten(slot.sentences, true, [1, 0], 0, 2) == TypeError &&
      ExcerptOf(slot, slot.rows, 0, [1, 0]).sentences == ["b", "a"]
  {
  }

  // ---------------------------------------------------------------------------
  // The packer's output is a well-formed data set

  lemma RowOfIsShaped(row: PackedRow, inst: Instance, d: Dims, cfg: Config, priorOrder: string,
                      isSingleton: int -> bool)
    requires IsRowOf(row, inst, d, cfg, priorOrder, isSingleton)
    ensures RowShaped(row, d)
  {
    var trace :| WellGenerated(Entry(inst, trace), priorOrder, cfg.padTag) && Fits(Entry(inst, trace), d) &&
      row == PackRow(Entry(inst, trace), d, cfg, isSingleton);
    PackRowShaped(Entry(inst, trace), d, cfg, isSingleton);
  }

  /** A packed row spans the bucket's widths, with 0/1 singleton flags. */
  lemma PackRowShaped(e: Entry, d: Dims, cfg: Config, isSingleton: int -> bool)
    requires Fits(e, d)
    ensures RowShaped(PackRow(e, d, cfg, isSingleton), d)
  {
  }

  /** What ReadStackedDataToVariable returns on success can be drawn from and walked. */
  lemma PackedDataIsWellFormed(sentences: seq<Option<Instance>>, cfg: Config, priorOrder: string,
                               isSingleton: int -> bool, slots: seq<Slot>, sizes: seq<nat>)
    requires ValidConfig(cfg) && |slots| == |cfg.buckets| && |sizes| == |cfg.buckets|
    requires forall b :: 0 <= b < |cfg.buckets| ==> sizes[b] == |InBucket(sentences, cfg.buckets, b)|
    requires SlotsHold(slots, sentences, cfg, priorOrder, isSingleton)
    ensures WellFormed(Data(slots, sizes))
  {
    forall b | 0 <= b < |sizes| && sizes[b] > 0
      ensures SlotFilled(slots[b], sizes[b])
    {
      assert SlotHolds(slots[b], sentences, cfg, priorOrder, isSingleton, b);
      var insts := InBucket(sentences, cfg.buckets, b);
      forall i | 0 <= i < sizes[b]
        ensures RowShaped(slots[b].rows[i], slots[b].dims)
      {
        RowOfIsShaped(slots[b].rows[i], insts[i], slots[b].dims, cfg, priorOrder, isSingleton);
      }
    }
  }
}
