/** Packing each bucket into padded, masked arrays: one row per record, at the bucket's
    width for the encoder fields and twice that width less one for the decoder fields. */
module Packing {
  import opened Wrappers
  import opened SeqUtil
  import opened Tree
  import StackInputs
  import opened Bucketing

  /** The constants the packer reads: the bucket thresholds, the ceilings and extra
      padding of the lemma and character widths, and the padding ids. */
  datatype Config = Config(buckets: seq<int>, maxEojulLength: int, numEojulPad: int,
                           maxCharLength: int, numCharPad: int,
                           padWord: int, padChar: int, padTag: int)

  /** The widths of one bucket's arrays: words per row, lemmas per word, characters per lemma. */
  datatype Dims = Dims(bucketLength: nat, lemmaLength: nat, charLength: nat)

  /** One record's row in every array of its bucket. */
  datatype PackedRow = PackedRow(
    words: seq<seq<int>>, chars: seq<seq<seq<int>>>, pos: seq<seq<int>>,
    heads: seq<int>, types: seq<int>, maskE: seq<int>, single: seq<seq<int>>, lengthE: int,
    stackedHeads: seq<int>, children: seq<int>, siblings: seq<int>, stackedTypes: seq<int>,
    skipConnect: seq<int>, maskD: seq<int>, lengthD: int)

  /** A bucket after packing; an empty bucket keeps a placeholder. */
  datatype Slot = Placeholder | Packed(dims: Dims, rows: seq<PackedRow>,
                                       sentences: seq<string>, comments: seq<seq<string>>)

  // ---------------------------------------------------------------------------
  // Padding one row

  /** s followed by the pad value up to the width. */
  function PadTo(s: seq<int>, width: nat, pad: int): (r: seq<int>)
    requires |s| <= width
    ensures |r| == width
    ensures forall j :: 0 <= j < width ==> r[j] == if j < |s| then s[j] else pad
  {
    s + seq(width - |s|, _ => pad)
  }

  /** Padding keeps the values: the first |s| cells read back as s. */
  lemma PadToPrefix(s: seq<int>, width: nat, pad: int)
    requires |s| <= width
    ensures PadTo(s, width, pad)[..|s|] == s
    ensures forall j :: |s| <= j < width ==> PadTo(s, width, pad)[j] == pad
  {
    var r := PadTo(s, width, pad);
    assert forall j :: 0 <= j < |s| ==> r[..|s|][j] == s[j];
  }

  /** A word-by-lemma grid padded to width × depth. */
  function PadGrid(g: seq<seq<int>>, width: nat, depth: nat, pad: int): (r: seq<seq<int>>)
    requires |g| <= width && forall w :: 0 <= w < |g| ==> |g[w]| <= depth
    ensures |r| == width && forall w :: 0 <= w < width ==> |r[w]| == depth
    ensures forall w, l :: 0 <= w < width && 0 <= l < depth ==>
      r[w][l] == if w < |g| && l < |g[w]| then g[w][l] else pad
  {
    seq(width, w requires 0 <= w < width => if w < |g| then PadTo(g[w], depth, pad) else seq(depth, _ => pad))
  }

  /** A word-by-lemma-by-character cube padded to width × depth × chars. */
  function PadCube(c: seq<seq<seq<int>>>, width: nat, depth: nat, chars: nat, pad: int): (r: seq<seq<seq<int>>>)
    requires |c| <= width
    requires forall w :: 0 <= w < |c| ==> |c[w]| <= depth && forall l :: 0 <= l < |c[w]| ==> |c[w][l]| <= chars
    ensures |r| == width
    ensures forall w :: 0 <= w < width ==> |r[w]| == depth && forall l :: 0 <= l < depth ==> |r[w][l]| == chars
    ensures forall w, l, k :: 0 <= w < width && 0 <= l < depth && 0 <= k < chars ==>
      r[w][l][k] == if w < |c| && l < |c[w]| && k < |c[w][l]| then c[w][l][k] else pad
  {
    seq(width, w requires 0 <= w < width =>
      if w < |c| then PadGrid(c[w], depth, chars, pad)
      else seq(depth, _ => seq(chars, _ => pad)))
  }

  /** 1 on the first n cells, 0 on the rest. */
  function Mask(n: int, width: nat): (r: seq<int>)
    ensures |r| == width
    ensures forall j :: 0 <= j < width ==> (r[j] == 1 <==> j < n) && (r[j] == 0 <==> n <= j)
  {
    seq(width, j requires 0 <= j < width => if j < n then 1 else 0)
  }

  /** 1 on the lemma cells whose word id the vocabulary marks as a singleton, 0 elsewhere. */
  function SingletonGrid(g: seq<seq<int>>, width: nat, depth: nat, isSingleton: int -> bool): (r: seq<seq<int>>)
    requires |g| <= width && forall w :: 0 <= w < |g| ==> |g[w]| <= depth
    ensures |r| == width && forall w :: 0 <= w < width ==> |r[w]| == depth
    ensures forall w, l :: 0 <= w < width && 0 <= l < depth ==>
      (r[w][l] == 1 <==> w < |g| && l < |g[w]| && isSingleton(g[w][l])) && (r[w][l] == 0 || r[w][l] == 1)
  {
    seq(width, w requires 0 <= w < width =>
      seq(depth, l requires 0 <= l < depth =>
        if w < |g| && l < |g[w]| && isSingleton(g[w][l]) then 1 else 0))
  }

  // ---------------------------------------------------------------------------
  // Packing one record

  /** The shape the packer needs of a record in a bucket with these widths: one entry per
      word in every per-word field, as many tags and character lists as lemmas, nothing
      wider than the arrays, and five decoder lists of 2 * size - 1 steps. */
  predicate Fits(e: Entry, d: Dims) {
    var inst := e.inst;
    var n := |inst.wordIds|;
    1 <= n <= d.bucketLength &&
    |inst.charIds| == n && |inst.posIds| == n && |inst.heads| == n && |inst.typeIds| == n &&
    (forall w :: 0 <= w < n ==>
      |inst.wordIds[w]| <= d.lemmaLength && |inst.posIds[w]| <= d.lemmaLength &&
      |inst.charIds[w]| <= d.lemmaLength &&
      forall l :: 0 <= l < |inst.charIds[w]| ==> |inst.charIds[w][l]| <= d.charLength) &&
    StackInputs.Parallel(e.trace) && |e.trace.stackedHeads| == 2 * n - 1
  }

  /** The packed row of a record: every field padded to the bucket's widths. */
  function PackRow(e: Entry, d: Dims, cfg: Config, isSingleton: int -> bool): (row: PackedRow)
    requires Fits(e, d)
  {
    var inst := e.inst;
    var n := |inst.wordIds|;
    var width := 2 * d.bucketLength - 1;
    PackedRow(
      PadGrid(inst.wordIds, d.bucketLength, d.lemmaLength, cfg.padWord),
      PadCube(inst.charIds, d.bucketLength, d.lemmaLength, d.charLength, cfg.padChar),
      PadGrid(inst.posIds, d.bucketLength, d.lemmaLength, cfg.padTag),
      PadTo(inst.heads, d.bucketLength, cfg.padTag),
      PadTo(inst.typeIds, d.bucketLength, cfg.padTag),
      Mask(n, d.bucketLength),
      SingletonGrid(inst.wordIds, d.bucketLength, d.lemmaLength, isSingleton),
      n,
      PadTo(e.trace.stackedHeads, width, cfg.padTag),
      PadTo(e.trace.children, width, cfg.padTag),
      PadTo(e.trace.siblings, width, cfg.padTag),
      PadTo(e.trace.stackedTypes, width, cfg.padTag),
      PadTo(e.trace.skipConnect, width, cfg.padTag),
      Mask(2 * n - 1, width),
      2 * n - 1)
  }

  /** Every field of a packed row reads back as the record below its length and as the
      padding id after it, the masks mark exactly the record's cells and the lengths are
      the record's. */
  lemma PackRowCells(e: Entry, d: Dims, cfg: Config, isSingleton: int -> bool)
    requires Fits(e, d)
    ensures var row := PackRow(e, d, cfg, isSingleton);
      var n := |e.inst.wordIds|;
      row.lengthE == n && row.lengthD == 2 * n - 1 &&
      row.words[..n] == PadGrid(e.inst.wordIds, n, d.lemmaLength, cfg.padWord) &&
      row.heads[..n] == e.inst.heads && row.types[..n] == e.inst.typeIds &&
      row.stackedHeads[..2 * n - 1] == e.trace.stackedHeads &&
      row.children[..2 * n - 1] == e.trace.children &&
      row.siblings[..2 * n - 1] == e.trace.siblings &&
      row.stackedTypes[..2 * n - 1] == e.trace.stackedTypes &&
      row.skipConnect[..2 * n - 1] == e.trace.skipConnect &&
      (forall j :: n <= j < d.bucketLength ==> row.heads[j] == cfg.padTag && row.types[j] == cfg.padTag) &&
      (forall t :: 2 * n - 1 <= t < 2 * d.bucketLength - 1 ==>
        row.stackedHeads[t] == cfg.padTag && row.children[t] == cfg.padTag &&
        row.siblings[t] == cfg.padTag && row.stackedTypes[t] == cfg.padTag &&
        row.skipConnect[t] == cfg.padTag)
    ensures var row := PackRow(e, d, cfg, isSingleton);
      var inst := e.inst;
      var n := |inst.wordIds|;
      forall w, l :: 0 <= w < d.bucketLength && 0 <= l < d.lemmaLength ==>
        row.words[w][l] == (if w < n && l < |inst.wordIds[w]| then inst.wordIds[w][l] else cfg.padWord) &&
        row.pos[w][l] == (if w < n && l < |inst.posIds[w]| then inst.posIds[w][l] else cfg.padTag) &&
        (row.single[w][l] == 1 <==> w < n && l < |inst.wordIds[w]| && isSingleton(inst.wordIds[w][l])) &&
        (row.single[w][l] == 0 || row.single[w][l] == 1)
    ensures var row := PackRow(e, d, cfg, isSingleton);
      var inst := e.inst;
      var n := |inst.wordIds|;
      forall w, l, k :: 0 <= w < d.bucketLength && 0 <= l < d.lemmaLength && 0 <= k < d.charLength ==>
        row.chars[w][l][k] ==
          if w < n && l < |inst.charIds[w]| && k < |inst.charIds[w][l]| then inst.charIds[w][l][k] else cfg.padChar
    ensures var row := PackRow(e, d, cfg, isSingleton);
      var n := |e.inst.wordIds|;
      |row.maskE| == d.bucketLength && |row.maskD| == 2 * d.bucketLength - 1 &&
      (forall j :: 0 <= j < d.bucketLength ==> (row.maskE[j] == 1 <==> j < n) && (row.maskE[j] == 0 <==> n <= j)) &&
      (forall t :: 0 <= t < 2 * d.bucketLength - 1 ==>
        (row.maskD[t] == 1 <==> t < 2 * n - 1) && (row.maskD[t] == 0 <==> 2 * n - 1 <= t))
  {
    var inst := e.inst;
    var n := |inst.wordIds|;
    var width := 2 * d.bucketLength - 1;
    PadToPrefix(inst.heads, d.bucketLength, cfg.padTag);
    PadToPrefix(inst.typeIds, d.bucketLength, cfg.padTag);
    PadToPrefix(e.trace.stackedHeads, width, cfg.padTag);
    PadToPrefix(e.trace.children, width, cfg.padTag);
    PadToPrefix(e.trace.siblings, width, cfg.padTag);
    PadToPrefix(e.trace.stackedTypes, width, cfg.padTag);
    PadToPrefix(e.trace.skipConnect, width, cfg.padTag);
    var words := PadGrid(inst.wordIds, d.bucketLength, d.lemmaLength, cfg.padWord);
    assert words[..n] == PadGrid(inst.wordIds, n, d.lemmaLength, cfg.padWord);
  }

  // ---------------------------------------------------------------------------
  // Packing one bucket

  /** The widths of a non-empty bucket: its threshold, and the clamped maxima. */
  function BucketDims(cfg: Config, b: nat, maxLemma: nat, maxChar: nat): (d: Dims)
    requires b < |cfg.buckets| && cfg.buckets[b] >= 0
    requires cfg.numEojulPad >= 0 && cfg.numCharPad >= 0
    requires cfg.maxEojulLength >= 0 && cfg.maxCharLength >= 0
    ensures d.bucketLength == cfg.buckets[b]
    ensures d.lemmaLength <= cfg.maxEojulLength && d.lemmaLength <= maxLemma + cfg.numEojulPad
    ensures d.lemmaLength == cfg.maxEojulLength || d.lemmaLength == maxLemma + cfg.numEojulPad
    ensures d.charLength <= cfg.maxCharLength && d.charLength <= maxChar + cfg.numCharPad
    ensures d.charLength == cfg.maxCharLength || d.charLength == maxChar + cfg.numCharPad
  {
    Dims(cfg.buckets[b], Min(cfg.maxEojulLength, maxLemma + cfg.numEojulPad),
         Min(cfg.maxCharLength, maxChar + cfg.numCharPad))
  }

  /** Fills one row per record, in the bucket's order, and collects the records' texts
      and comments. */
  method PackBucket(entries: seq<Entry>, d: Dims, cfg: Config, isSingleton: int -> bool)
    returns (rows: seq<PackedRow>, sentences: seq<string>, comments: seq<seq<string>>)
    requires forall i :: 0 <= i < |entries| ==> Fits(entries[i], d)
    ensures |rows| == |entries| && |sentences| == |entries| && |comments| == |entries|
    ensures forall i :: 0 <= i < |entries| ==>
      rows[i] == PackRow(entries[i], d, cfg, isSingleton) &&
      sentences[i] == entries[i].inst.sentence && comments[i] == entries[i].inst.comments
  {
    var a := new PackedRow[|entries|];
    sentences, comments := [], [];
    for i := 0 to |entries|
      invariant |sentences| == i && |comments| == i
      invariant forall j :: 0 <= j < i ==>
        a[j] == PackRow(entries[j], d, cfg, isSingleton) &&
        sentences[j] == entries[j].inst.sentence && comments[j] == entries[j].inst.comments
    {
      a[i] := PackRow(entries[i], d, cfg, isSingleton);
      sentences := sentences + [entries[i].inst.sentence];
      comments := comments + [entries[i].inst.comments];
    }
    rows := a[..];
  }

  // ---------------------------------------------------------------------------
  // Packing the whole dataset

  /** What the packer demands of a record that reaches a bucket: one entry per word in
      every per-word field, no more tags or character lists than lemmas, widths within the
      ceilings, and a rooted tree, so that its step lists have 2 * size - 1 steps. */
  predicate Packable(inst: Instance, cfg: Config) {
    var n := |inst.wordIds|;
    |inst.charIds| == n && |inst.posIds| == n && |inst.heads| == n && |inst.typeIds| == n &&
    Rooted(inst.heads) &&
    (forall w :: 0 <= w < n ==> |inst.posIds[w]| <= |inst.wordIds[w]| && |inst.charIds[w]| <= |inst.wordIds[w]|) &&
    LemmaWidth(inst) <= cfg.maxEojulLength && CharWidth(inst) <= cfg.maxCharLength
  }

  /** The configuration the packer can allocate with. */
  predicate ValidConfig(cfg: Config) {
    cfg.numEojulPad >= 0 && cfg.numCharPad >= 0 && cfg.maxEojulLength >= 0 && cfg.maxCharLength >= 0 &&
    forall b :: 0 <= b < |cfg.buckets| ==> cfg.buckets[b] >= 0
  }

  /** The row packs sentence inst with step lists the generator makes for it. */
  ghost predicate IsRowOf(row: PackedRow, inst: Instance, d: Dims, cfg: Config, priorOrder: string,
                    isSingleton: int -> bool)
  {
    exists trace :: WellGenerated(Entry(inst, trace), priorOrder, cfg.padTag) && Fits(Entry(inst, trace), d) &&
      row == PackRow(Entry(inst, trace), d, cfg, isSingleton)
  }

  /** Slot b packs the records of bucket b, or is the placeholder when there are none. */
  ghost predicate SlotHolds(slot: Slot, sentences: seq<Option<Instance>>, cfg: Config, priorOrder: string,
                      isSingleton: int -> bool, b: nat)
    requires ValidConfig(cfg) && b < |cfg.buckets|
  {
    var insts := InBucket(sentences, cfg.buckets, b);
    if |insts| == 0 then slot == Placeholder
    else
      slot.Packed? && slot.dims == BucketDims(cfg, b, MaxLemmaIn(insts), MaxCharIn(insts)) &&
      |slot.rows| == |insts| && |slot.sentences| == |insts| && |slot.comments| == |insts| &&
      forall i :: 0 <= i < |insts| ==>
        IsRowOf(slot.rows[i], insts[i], slot.dims, cfg, priorOrder, isSingleton) &&
        slot.sentences[i] == insts[i].sentence && slot.comments[i] == insts[i].comments
  }

  /** The slots of the first |slots| buckets hold their records. */
  ghost predicate SlotsHold(slots: seq<Slot>, sentences: seq<Option<Instance>>, cfg: Config, priorOrder: string,
                            isSingleton: int -> bool)
    requires ValidConfig(cfg) && |slots| <= |cfg.buckets|
  {
    forall c :: 0 <= c < |slots| ==> SlotHolds(slots[c], sentences, cfg, priorOrder, isSingleton, c)
  }

  /** Reads the sentences into buckets and packs every non-empty bucket into padded arrays;
      also returns the number of records of each bucket. */
  method ReadStackedDataToVariable(sentences: seq<Option<Instance>>, cfg: Config, priorOrder: string,
                                   isSingleton: int -> bool)
    returns (res: Result<(seq<Slot>, seq<nat>), string>)
    requires ValidConfig(cfg)
    requires forall i :: 0 <= i < |sentences| && sentences[i].Some? && Placed(cfg.buckets, sentences[i].value) ==>
      Ready(sentences[i].value, priorOrder) && Packable(sentences[i].value, cfg)
    ensures res.Failure? <==> StackInputs.ParseOrder(priorOrder).None? && AnyPlaced(sentences, cfg.buckets)
    ensures res.Failure? ==> res.error == "Unknown prior order: " + priorOrder
    ensures res.Success? ==>
      var (slots, sizes) := res.value;
      |slots| == |cfg.buckets| && |sizes| == |cfg.buckets| &&
      (forall b :: 0 <= b < |cfg.buckets| ==> sizes[b] == |InBucket(sentences, cfg.buckets, b)|) &&
      SlotsHold(slots, sentences, cfg, priorOrder, isSingleton)
  {
    var read := ReadStackedDataList(sentences, cfg.buckets, priorOrder, cfg.padTag);
    if read.Failure? {
      return Failure(read.error);
    }
    var ds := read.value;
    var sizes := seq(|cfg.buckets|, b requires 0 <= b < |cfg.buckets| => |ds.data[b]|);
    BucketSizes(ds, sentences, cfg.buckets, sizes);
    var slots: seq<Slot> := [];
    for b := 0 to |cfg.buckets|
      invariant |slots| == b
      invariant SlotsHold(slots, sentences, cfg, priorOrder, isSingleton)
    {
      var slot := PackSlot(ds, sentences, cfg, priorOrder, isSingleton, b);
      SlotsAppend(slots, slot, sentences, cfg, priorOrder, isSingleton);
      slots := slots + [slot];
    }
    return Success((slots, sizes));
  }

  /** Packs bucket b: its threshold and clamped maxima give the widths, and each record is
      copied into its row; an empty bucket gets the placeholder. */
  method PackSlot(ds: Dataset, sentences: seq<Option<Instance>>, cfg: Config, priorOrder: string,
                  isSingleton: int -> bool, b: nat)
    returns (slot: Slot)
    requires ValidConfig(cfg)
    requires forall i :: 0 <= i < |sentences| && sentences[i].Some? && Placed(cfg.buckets, sentences[i].value) ==>
      Ready(sentences[i].value, priorOrder) && Packable(sentences[i].value, cfg)
    requires Bucketed(ds, sentences, cfg.buckets) && AllGenerated(ds.data, priorOrder, cfg.padTag)
    requires b < |cfg.buckets|
    ensures SlotHolds(slot, sentences, cfg, priorOrder, isSingleton, b)
  {
    var insts := InBucket(sentences, cfg.buckets, b);
    BucketFits(ds, sentences, cfg, priorOrder, b);
    if |ds.data[b]| == 0 {
      return Placeholder;
    }
    var d := BucketDims(cfg, b, ds.maxLemma[b], ds.maxChar[b]);
    var rows, sents, comms := PackBucket(ds.data[b], d, cfg, isSingleton);
    slot := Packed(d, rows, sents, comms);
    assert RowsPacked(slot, ds.data[b], cfg, isSingleton);
    RowsAreRowsOf(ds.data[b], insts, slot, cfg, priorOrder, isSingleton);
    PackedSlotHolds(insts, slot, sentences, cfg, priorOrder, isSingleton, b);
  }

  /** The sizes are the numbers of records of the buckets. */
  lemma BucketSizes(ds: Dataset, sentences: seq<Option<Instance>>, buckets: seq<int>, sizes: seq<nat>)
    requires Bucketed(ds, sentences, buckets)
    requires |sizes| == |buckets| && forall b :: 0 <= b < |buckets| ==> sizes[b] == |ds.data[b]|
    ensures forall b :: 0 <= b < |buckets| ==> sizes[b] == |InBucket(sentences, buckets, b)|
  {
    forall b | 0 <= b < |buckets| ensures sizes[b] == |InBucket(sentences, buckets, b)| {
      assert BucketHolds(ds, sentences, buckets, b);
    }
  }

  lemma SlotsAppend(slots: seq<Slot>, slot: Slot, sentences: seq<Option<Instance>>, cfg: Config,
                    priorOrder: string, isSingleton: int -> bool)
    requires ValidConfig(cfg) && |slots| < |cfg.buckets|
    requires SlotsHold(slots, sentences, cfg, priorOrder, isSingleton)
    requires SlotHolds(slot, sentences, cfg, priorOrder, isSingleton, |slots|)
    ensures SlotsHold(slots + [slot], sentences, cfg, priorOrder, isSingleton)
  {
    forall c | 0 <= c < |slots| + 1 ensures SlotHolds((slots + [slot])[c], sentences, cfg, priorOrder, isSingleton, c) {
      if c < |slots| {
        assert (slots + [slot])[c] == slots[c];
      }
    }
  }

  /** The entries of a bucket matched with its records, each generated and fitting the
      bucket's arrays. */
  ghost predicate EntriesReady(entries: seq<Entry>, insts: seq<Instance>, d: Dims, cfg: Config, priorOrder: string) {
    |entries| == |insts| &&
    forall k :: 0 <= k < |insts| ==>
      entries[k].inst == insts[k] && WellGenerated(entries[k], priorOrder, cfg.padTag) && Fits(entries[k], d)
  }

  /** The slot has one row per entry, packed at the slot's widths, with the entries' texts
      and comments. */
  predicate RowsPacked(slot: Slot, entries: seq<Entry>, cfg: Config, isSingleton: int -> bool)
    requires slot.Packed? && forall i :: 0 <= i < |entries| ==> Fits(entries[i], slot.dims)
  {
    |slot.rows| == |entries| && |slot.sentences| == |entries| && |slot.comments| == |entries| &&
    forall i :: 0 <= i < |entries| ==>
      slot.rows[i] == PackRow(entries[i], slot.dims, cfg, isSingleton) &&
      slot.sentences[i] == entries[i].inst.sentence && slot.comments[i] == entries[i].inst.comments
  }

  /** Each packed row is the row of its record. */
  lemma RowsAreRowsOf(entries: seq<Entry>, insts: seq<Instance>, slot: Slot, cfg: Config, priorOrder: string,
                      isSingleton: int -> bool)
    requires slot.Packed? && EntriesReady(entries, insts, slot.dims, cfg, priorOrder)
    requires RowsPacked(slot, entries, cfg, isSingleton)
    ensures |slot.rows| == |insts| && |slot.sentences| == |insts| && |slot.comments| == |insts|
    ensures forall i :: 0 <= i < |insts| ==>
      IsRowOf(slot.rows[i], insts[i], slot.dims, cfg, priorOrder, isSingleton) &&
      slot.sentences[i] == insts[i].sentence && slot.comments[i] == insts[i].comments
  {
    forall i | 0 <= i < |insts| ensures IsRowOf(slot.rows[i], insts[i], slot.dims, cfg, priorOrder, isSingleton) {
      RowOfEntry(slot.rows[i], entries[i], insts[i], slot.dims, cfg, priorOrder, isSingleton);
    }
  }

  /** A packed slot built from a bucket's entries holds the bucket's records. */
  lemma PackedSlotHolds(insts: seq<Instance>, slot: Slot, sentences: seq<Option<Instance>>,
                        cfg: Config, priorOrder: string, isSingleton: int -> bool, b: nat)
    requires ValidConfig(cfg) && b < |cfg.buckets|
    requires insts == InBucket(sentences, cfg.buckets, b) && |insts| > 0
    requires slot.Packed? && slot.dims == BucketDims(cfg, b, MaxLemmaIn(insts), MaxCharIn(insts))
    requires |slot.rows| == |insts| && |slot.sentences| == |insts| && |slot.comments| == |insts|
    requires forall i :: 0 <= i < |insts| ==>
      IsRowOf(slot.rows[i], insts[i], slot.dims, cfg, priorOrder, isSingleton) &&
      slot.sentences[i] == insts[i].sentence && slot.comments[i] == insts[i].comments
    ensures SlotHolds(slot, sentences, cfg, priorOrder, isSingleton, b)
  {
  }

  lemma RowOfEntry(row: PackedRow, e: Entry, inst: Instance, d: Dims, cfg: Config, priorOrder: string,
                   isSingleton: int -> bool)
    requires e.inst == inst && WellGenerated(e, priorOrder, cfg.padTag) && Fits(e, d)
    requires row == PackRow(e, d, cfg, isSingleton)
    ensures IsRowOf(row, inst, d, cfg, priorOrder, isSingleton)
  {
    assert e == Entry(inst, e.trace);
  }

  /** A record has one row at given widths: the generator's step lists are determined by
      the sentence and the order, so IsRowOf fixes the decoder fields as well. */
  lemma RowOfIsUnique(row1: PackedRow, row2: PackedRow, inst: Instance, d: Dims, cfg: Config,
                      priorOrder: string, isSingleton: int -> bool)
    requires IsRowOf(row1, inst, d, cfg, priorOrder, isSingleton)
    requires IsRowOf(row2, inst, d, cfg, priorOrder, isSingleton)
    ensures row1 == row2
  {
    var t1 :| WellGenerated(Entry(inst, t1), priorOrder, cfg.padTag) && Fits(Entry(inst, t1), d) &&
      row1 == PackRow(Entry(inst, t1), d, cfg, isSingleton);
    var t2 :| WellGenerated(Entry(inst, t2), priorOrder, cfg.padTag) && Fits(Entry(inst, t2), d) &&
      row2 == PackRow(Entry(inst, t2), d, cfg, isSingleton);
    var o := StackInputs.ParseOrder(priorOrder).value;
    StackInputs.GeneratedIsUnique(inst.heads, inst.typeIds, o, cfg.padTag, t1, t2);
  }

  /** Every record of a bucket fits the bucket's arrays. */
  lemma BucketFits(ds: Dataset, sentences: seq<Option<Instance>>, cfg: Config, priorOrder: string, b: nat)
    requires ValidConfig(cfg)
    requires forall i :: 0 <= i < |sentences| && sentences[i].Some? && Placed(cfg.buckets, sentences[i].value) ==>
      Ready(sentences[i].value, priorOrder) && Packable(sentences[i].value, cfg)
    requires Bucketed(ds, sentences, cfg.buckets) && AllGenerated(ds.data, priorOrder, cfg.padTag)
    requires b < |cfg.buckets|
    ensures var insts := InBucket(sentences, cfg.buckets, b);
      ds.maxLemma[b] == MaxLemmaIn(insts) && ds.maxChar[b] == MaxCharIn(insts) &&
      EntriesReady(ds.data[b], insts, BucketDims(cfg, b, MaxLemmaIn(insts), MaxCharIn(insts)), cfg, priorOrder)
  {
    var insts := InBucket(sentences, cfg.buckets, b);
    assert BucketHolds(ds, sentences, cfg.buckets, b);
    var d := BucketDims(cfg, b, MaxLemmaIn(insts), MaxCharIn(insts));
    InBucketMembers(sentences, cfg.buckets, b);
    forall k | 0 <= k < |insts|
      ensures ds.data[b][k].inst == insts[k] && WellGenerated(ds.data[b][k], priorOrder, cfg.padTag) && Fits(ds.data[b][k], d)
    {
      var e := ds.data[b][k];
      assert e.inst == insts[k] && insts[k] in insts;
      var i :| 0 <= i < |sentences| && sentences[i] == Some(e.inst);
      assert Ready(e.inst, priorOrder) && Packable(e.inst, cfg);
      assert WellGenerated(e, priorOrder, cfg.padTag);
      GeneratedLength(e, priorOrder, cfg.padTag);
      EntryFits(e, d, cfg);
    }
  }

  /** A generated walk over a rooted tree has 2 * |heads| - 1 steps in each list. */
  lemma GeneratedLength(e: Entry, priorOrder: string, padTag: int)
    requires WellGenerated(e, priorOrder, padTag) && Rooted(e.inst.heads)
    ensures StackInputs.Parallel(e.trace) && |e.trace.stackedHeads| == 2 * |e.inst.heads| - 1
  {
  }

  /** A record whose widths are at most the bucket's maxima fits the bucket's arrays. */
  lemma EntryFits(e: Entry, d: Dims, cfg: Config)
    requires Packable(e.inst, cfg) && 1 <= |e.inst.wordIds| <= d.bucketLength
    requires StackInputs.Parallel(e.trace) && |e.trace.stackedHeads| == 2 * |e.inst.heads| - 1
    requires LemmaWidth(e.inst) <= d.lemmaLength && CharWidth(e.inst) <= d.charLength
    ensures Fits(e, d)
  {
    WordsWithinWidth(e.inst);
    CharsWithinWidth(e.inst);
  }
}
